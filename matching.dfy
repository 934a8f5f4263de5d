/**
 The assignment matcher: the search for the first eligible agent, the
 specification of one matcher pass over the pending-call queue, and what a
 pass does and does not change.
 */
module Matching {
  import opened Domain

  datatype Option<T> = None | Some(value: T)

  /** The roster and the assignment log, the two collections a matcher pass writes besides the queue. */
  datatype Board = Board(users: seq<User>, log: seq<AssignedCall>)

  /** An agent may take a call of department `d`. */
  predicate Eligible(u: User, d: Department) {
    u.department == d && u.status == Available
  }

  /** The lowest roster index of an agent eligible for department `d`, if any. */
  function FirstEligible(users: seq<User>, d: Department): (r: Option<nat>)
    ensures r.Some? ==> r.value < |users| && Eligible(users[r.value], d)
    ensures r.Some? ==> forall j :: 0 <= j < r.value ==> !Eligible(users[j], d)
    ensures r.None? ==> forall j :: 0 <= j < |users| ==> !Eligible(users[j], d)
  {
    if users == [] then None
    else if Eligible(users[0], d) then Some(0)
    else match FirstEligible(users[1..], d)
      case None => None
      case Some(i) => Some(i + 1)
  }

  /** The roster scan of the matcher, front to back, stopping at the first eligible agent. */
  method FindAgent(users: seq<User>, d: Department) returns (r: Option<nat>)
    ensures r == FirstEligible(users, d)
  {
    var i := 0;
    while i < |users|
      invariant 0 <= i <= |users|
      invariant forall j :: 0 <= j < i ==> !Eligible(users[j], d)
    {
      if users[i].department == d && users[i].status == Available {
        return Some(i);
      }
      i := i + 1;
    }
    return None;
  }

  /**
   Handling of one popped call: the first eligible agent goes on call and the
   match is logged; with no eligible agent nothing changes and the call is gone.
   */
  function MatchOne(c: Call, b: Board): (r: Board)
    ensures |r.users| == |b.users| && b.log <= r.log
  {
    match FirstEligible(b.users, c.department)
    case None => b
    case Some(i) =>
      Board(b.users[i := b.users[i].(status := OnCall)], b.log + [AssignedCall(b.users[i].id, c.id)])
  }

  /** A whole matcher pass: calls are popped from the tail of the queue until it is empty. */
  function MatchAll(q: seq<Call>, b: Board): (r: Board)
    ensures |r.users| == |b.users| && b.log <= r.log
    decreases |q|
  {
    if q == [] then b else MatchAll(q[..|q| - 1], MatchOne(q[|q| - 1], b))
  }

  /** The only status change a matcher allows: `Available` to `OnCall`. */
  predicate StatusStep(before: Status, after: Status) {
    after == before || (before == Available && after == OnCall)
  }

  /** The roster keeps its agents and each status is unchanged or moves from `Available` to `OnCall`. */
  predicate MatcherStep(before: seq<User>, after: seq<User>) {
    SameRoster(before, after) &&
    forall i :: 0 <= i < |before| ==> StatusStep(before[i].status, after[i].status)
  }

  /** One for an `Available` agent, zero otherwise. */
  function AvailableCount(u: User): nat {
    if u.status == Available then 1 else 0
  }

  /** The number of `Available` agents in a roster. */
  function CountAvailable(users: seq<User>): (n: nat)
    ensures n <= |users|
  {
    if users == [] then 0 else AvailableCount(users[0]) + CountAvailable(users[1..])
  }

  lemma {:induction false} CountAvailableUpdate(users: seq<User>, i: nat, x: User)
    requires i < |users|
    ensures CountAvailable(users[i := x]) == CountAvailable(users) - AvailableCount(users[i]) + AvailableCount(x)
  {
    if i == 0 {
      assert users[i := x][1..] == users[1..];
    } else {
      assert users[i := x][1..] == users[1..][i - 1 := x];
      CountAvailableUpdate(users[1..], i - 1, x);
    }
  }

  lemma MatcherStepTransitive(a: seq<User>, b: seq<User>, c: seq<User>)
    requires MatcherStep(a, b) && MatcherStep(b, c)
    ensures MatcherStep(a, c)
  {
  }

  /**
   One popped call changes the roster only by a matcher step, extends the log
   by at most one entry, and each entry costs exactly one available agent.
   */
  lemma MatchOneFrame(c: Call, b: Board)
    ensures var r := MatchOne(c, b);
      MatcherStep(b.users, r.users) && b.log <= r.log && |r.log| <= |b.log| + 1 &&
      |r.log| - |b.log| + CountAvailable(r.users) == CountAvailable(b.users)
  {
    match FirstEligible(b.users, c.department)
    case None =>
    case Some(i) =>
      CountAvailableUpdate(b.users, i, b.users[i].(status := OnCall));
  }

  /**
   A matcher pass keeps every agent's id, name and department, changes
   statuses only from `Available` to `OnCall`, keeps the old log as a prefix,
   appends at most one entry per popped call and at most one per agent that
   was `Available`: every appended entry turned exactly one agent `OnCall`.
   */
  lemma {:induction false} MatchAllFrame(q: seq<Call>, b: Board)
    ensures var r := MatchAll(q, b);
      MatcherStep(b.users, r.users) && b.log <= r.log && |r.log| <= |b.log| + |q| &&
      |r.log| - |b.log| + CountAvailable(r.users) == CountAvailable(b.users) &&
      |r.log| - |b.log| <= CountAvailable(b.users)
    decreases |q|
  {
    if q != [] {
      var b1 := MatchOne(q[|q| - 1], b);
      MatchOneFrame(q[|q| - 1], b);
      MatchAllFrame(q[..|q| - 1], b1);
      MatcherStepTransitive(b.users, b1.users, MatchAll(q, b).users);
    }
  }

  /**
   Entry `e` records a match, during the pass over `q`, of a call in `q` to an
   agent of the call's department that was `Available` before the pass and is
   `OnCall` after it.
   */
  ghost predicate MatchedBy(e: AssignedCall, q: seq<Call>, before: seq<User>, after: seq<User>) {
    exists i, j :: 0 <= i < |before| && i < |after| && 0 <= j < |q| &&
      after[i].id == e.userId && q[j].id == e.callId &&
      before[i].department == q[j].department &&
      before[i].status == Available && after[i].status == OnCall
  }

  /** A match recorded while popping the rest of the queue is also a match of the whole pass. */
  lemma MatchedByExtend(e: AssignedCall, q: seq<Call>, b: Board, after: seq<User>)
    requires q != []
    requires var b1 := MatchOne(q[|q| - 1], b);
      MatchedBy(e, q[..|q| - 1], b1.users, after)
    ensures MatchedBy(e, q, b.users, after)
  {
    var n := |q| - 1;
    var b1 := MatchOne(q[n], b);
    var i, j :| 0 <= i < |b1.users| && i < |after| && 0 <= j < n &&
      after[i].id == e.userId && q[..n][j].id == e.callId &&
      b1.users[i].department == q[..n][j].department &&
      b1.users[i].status == Available && after[i].status == OnCall;
    assert q[..n][j] == q[j];
    assert b1.users[i] == b.users[i];
  }

  /** Every entry a matcher pass appends pairs a popped call with a formerly available agent of its department. */
  lemma {:induction false} MatchAllEntries(q: seq<Call>, b: Board)
    ensures var r := MatchAll(q, b);
      forall k :: |b.log| <= k < |r.log| ==> MatchedBy(r.log[k], q, b.users, r.users)
    decreases |q|
  {
    if q != [] {
      var n := |q| - 1;
      var c, q' := q[n], q[..n];
      var b1 := MatchOne(c, b);
      var r := MatchAll(q, b);
      assert r == MatchAll(q', b1);
      MatchOneFrame(c, b);
      MatchAllEntries(q', b1);
      MatchAllFrame(q', b1);
      forall k | |b.log| <= k < |r.log| ensures MatchedBy(r.log[k], q, b.users, r.users) {
        if k < |b1.log| {
          var i0 := FirstEligible(b.users, c.department).value;
          assert r.log[k] == b1.log[k] == AssignedCall(b.users[i0].id, c.id);
          assert StatusStep(b1.users[i0].status, r.users[i0].status);
        } else {
          MatchedByExtend(r.log[k], q, b, r.users);
        }
      }
    }
  }

  /** Conversely, every agent a matcher pass turns from `Available` to `OnCall` has an appended entry with its id. */
  lemma {:induction false} MatchAllLogsNewOnCall(q: seq<Call>, b: Board)
    ensures var r := MatchAll(q, b);
      |r.users| == |b.users| &&
      forall i :: 0 <= i < |b.users| && b.users[i].status == Available && r.users[i].status == OnCall ==>
        exists k :: |b.log| <= k < |r.log| && r.log[k].userId == b.users[i].id
    decreases |q|
  {
    MatchAllFrame(q, b);
    if q != [] {
      var n := |q| - 1;
      var c, q' := q[n], q[..n];
      var b1 := MatchOne(c, b);
      var r := MatchAll(q, b);
      assert r == MatchAll(q', b1);
      MatchOneFrame(c, b);
      MatchAllFrame(q', b1);
      MatchAllLogsNewOnCall(q', b1);
      forall i | 0 <= i < |b.users| && b.users[i].status == Available && r.users[i].status == OnCall
        ensures exists k :: |b.log| <= k < |r.log| && r.log[k].userId == b.users[i].id
      {
        if b1.users[i].status == OnCall {
          var k := |b.log|;
          assert b1.log[k].userId == b.users[i].id;
          assert r.log[k] == b1.log[k];
        } else {
          assert b1.users[i] == b.users[i];
        }
      }
    }
  }

  /** One for an agent eligible for department `d`, zero otherwise. */
  function EligibleCount(u: User, d: Department): nat {
    if Eligible(u, d) then 1 else 0
  }

  /** The number of agents eligible for department `d`. */
  function CountEligible(users: seq<User>, d: Department): (n: nat)
    ensures n <= |users|
  {
    if users == [] then 0 else EligibleCount(users[0], d) + CountEligible(users[1..], d)
  }

  /** The number of queued calls of department `d`. */
  function CountCalls(q: seq<Call>, d: Department): (n: nat)
    ensures n <= |q|
  {
    if q == [] then 0 else CountCalls(q[..|q| - 1], d) + (if q[|q| - 1].department == d then 1 else 0)
  }

  lemma {:induction false} CountEligibleUpdate(users: seq<User>, i: nat, x: User, d: Department)
    requires i < |users|
    ensures CountEligible(users[i := x], d) == CountEligible(users, d) - EligibleCount(users[i], d) + EligibleCount(x, d)
  {
    if i == 0 {
      assert users[i := x][1..] == users[1..];
    } else {
      assert users[i := x][1..] == users[1..][i - 1 := x];
      CountEligibleUpdate(users[1..], i - 1, x, d);
    }
  }

  /** No agent is eligible for `d` exactly when the roster scan finds none. */
  lemma {:induction false} CountEligibleNone(users: seq<User>, d: Department)
    ensures CountEligible(users, d) == 0 <==> FirstEligible(users, d).None?
  {
    if users != [] {
      CountEligibleNone(users[1..], d);
    }
  }

  lemma {:induction false} CountEligibleMono(x: seq<User>, y: seq<User>, d: Department)
    requires |x| == |y|
    requires forall i :: 0 <= i < |x| && Eligible(x[i], d) ==> Eligible(y[i], d)
    ensures CountEligible(x, d) <= CountEligible(y, d)
  {
    if x != [] {
      assert forall i :: 0 <= i < |x| - 1 ==> x[1..][i] == x[i + 1] && y[1..][i] == y[i + 1];
      CountEligibleMono(x[1..], y[1..], d);
    }
  }

  lemma {:induction false} CountCallsPositive(q: seq<Call>, d: Department, j: nat)
    requires j < |q| && q[j].department == d
    ensures CountCalls(q, d) > 0
    decreases |q|
  {
    if j < |q| - 1 {
      assert q[..|q| - 1][j] == q[j];
      CountCallsPositive(q[..|q| - 1], d, j);
    }
  }

  /**
   One popped call is logged exactly when some agent of its department is
   `Available`, and then it takes one such agent; the availability of every
   other department is untouched.
   */
  lemma MatchOneServes(c: Call, b: Board, d: Department)
    ensures var r := MatchOne(c, b);
      (|r.log| == |b.log| + 1 <==> CountEligible(b.users, c.department) > 0) &&
      (|r.log| == |b.log| <==> CountEligible(b.users, c.department) == 0) &&
      CountEligible(r.users, d) ==
        CountEligible(b.users, d) - (if c.department == d && CountEligible(b.users, d) > 0 then 1 else 0)
  {
    CountEligibleNone(b.users, c.department);
    match FirstEligible(b.users, c.department)
    case None =>
    case Some(i) =>
      CountEligibleUpdate(b.users, i, b.users[i].(status := OnCall), d);
  }

  /**
   Per department, a matcher pass serves as many calls as it can: the agents
   of `d` it turns `OnCall` number the smaller of the queued calls of `d` and
   the agents of `d` that were `Available`. So a call of `d` is dropped only
   when no agent of `d` is left `Available`.
   */
  lemma {:induction false} MatchAllServedPerDepartment(q: seq<Call>, b: Board, d: Department)
    ensures var r := MatchAll(q, b);
      var avail, calls := CountEligible(b.users, d), CountCalls(q, d);
      CountEligible(r.users, d) <= avail &&
      avail - CountEligible(r.users, d) == (if calls <= avail then calls else avail) &&
      (CountEligible(r.users, d) > 0 ==> avail - CountEligible(r.users, d) == calls)
    decreases |q|
  {
    if q != [] {
      var n := |q| - 1;
      var b1 := MatchOne(q[n], b);
      assert MatchAll(q, b) == MatchAll(q[..n], b1);
      MatchOneServes(q[n], b, d);
      MatchAllServedPerDepartment(q[..n], b1, d);
    }
  }

  /**
   A matcher pass serves demand: when a queued call's department has an
   `Available` agent before the pass, some agent of that department goes
   from `Available` to `OnCall`.
   */
  lemma MatchAllServes(q: seq<Call>, b: Board, d: Department, j: nat, a: nat)
    requires j < |q| && q[j].department == d
    requires a < |b.users| && Eligible(b.users[a], d)
    ensures var r := MatchAll(q, b);
      exists i :: (0 <= i < |b.users| && i < |r.users| && b.users[i].department == d &&
        b.users[i].status == Available && r.users[i].status == OnCall)
  {
    var r := MatchAll(q, b);
    CountCallsPositive(q, d, j);
    CountEligibleNone(b.users, d);
    MatchAllServedPerDepartment(q, b, d);
    MatchAllFrame(q, b);
    if forall i :: 0 <= i < |b.users| && Eligible(b.users[i], d) ==> Eligible(r.users[i], d) {
      CountEligibleMono(b.users, r.users, d);
      assert false;
    }
    var i :| 0 <= i < |b.users| && Eligible(b.users[i], d) && !Eligible(r.users[i], d);
    assert StatusStep(b.users[i].status, r.users[i].status);
  }

  /**
   Calls are served last-in first-out: when two queued calls of one
   department compete for a single eligible agent, the call nearer the tail
   gets the agent and the other one is discarded.
   */
  lemma TailCallServedFirst(first: Call, last: Call, b: Board, i: nat)
    requires first.department == last.department
    requires i < |b.users| && Eligible(b.users[i], last.department)
    requires forall j :: 0 <= j < |b.users| && j != i ==> !Eligible(b.users[j], last.department)
    ensures MatchAll([first, last], b) ==
      Board(b.users[i := b.users[i].(status := OnCall)], b.log + [AssignedCall(b.users[i].id, last.id)])
  {
    var b1 := MatchOne(last, b);
    assert FirstEligible(b.users, last.department) == Some(i);
    assert FirstEligible(b1.users, first.department).None? by {
      forall j | 0 <= j < |b1.users| ensures !Eligible(b1.users[j], first.department) {
        if j != i { assert b1.users[j] == b.users[j]; }
      }
    }
    assert [first, last][..1] == [first];
    assert MatchAll([first], b1) == MatchAll([], MatchOne(first, b1));
  }
}
