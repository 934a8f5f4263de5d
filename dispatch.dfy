/**
 The shared dispatch state (agent roster, pending-call queue, assignment
 log) and one tick of each background process as a method on it: the call
 generator, the assignment matcher and the availability resetter.
 */
module Dispatch {
  import opened Domain
  import opened Matching
  import opened Resetting

  /** A queued call carries an id the generator can draw and that id's department. */
  predicate CallWellFormed(c: Call) {
    MinCallId <= c.id < MaxCallId && c.department == DepartmentOf(c.id)
  }

  predicate CallsWellFormed(q: seq<Call>) {
    forall j :: 0 <= j < |q| ==> CallWellFormed(q[j])
  }

  /** No process ever moves an agent to `Break` or `LoggedOut`. */
  predicate InService(users: seq<User>) {
    forall i :: 0 <= i < |users| ==> users[i].status == Available || users[i].status == OnCall
  }

  /** Every agent on a call has its id in the assignment log. */
  predicate OnCallLogged(users: seq<User>, log: seq<AssignedCall>) {
    forall i :: 0 <= i < |users| && users[i].status == OnCall ==> users[i].id in UserIds(log)
  }

  /** Every log entry names a roster agent whose department is that of the call id it records. */
  predicate LogConsistent(users: seq<User>, log: seq<AssignedCall>) {
    forall k :: 0 <= k < |log| ==>
      exists i :: (0 <= i < |users| && users[i].id == log[k].userId &&
        users[i].department == DepartmentOf(log[k].callId))
  }

  /** The invariant the roster and log keep under every tick. */
  predicate BoardInvariant(b: Board) {
    InService(b.users) && OnCallLogged(b.users, b.log) && LogConsistent(b.users, b.log)
  }

  /** After a matcher pass every agent on a call is still logged. */
  lemma MatchAllKeepsOnCallLogged(q: seq<Call>, b: Board)
    requires InService(b.users) && OnCallLogged(b.users, b.log)
    ensures var r := MatchAll(q, b); InService(r.users) && OnCallLogged(r.users, r.log)
  {
    var r := MatchAll(q, b);
    MatchAllFrame(q, b);
    MatchAllLogsNewOnCall(q, b);
    forall i | 0 <= i < |r.users| ensures r.users[i].status == Available || r.users[i].status == OnCall {
      assert StatusStep(b.users[i].status, r.users[i].status);
    }
    forall i | 0 <= i < |r.users| && r.users[i].status == OnCall ensures r.users[i].id in UserIds(r.log) {
      assert StatusStep(b.users[i].status, r.users[i].status);
      assert SameAgent(b.users[i], r.users[i]);
      if b.users[i].status == OnCall {
        UserIdsGrow(b.log, r.log, b.users[i].id);
      } else {
        var k :| |b.log| <= k < |r.log| && r.log[k].userId == b.users[i].id;
        assert UserIds(r.log)[k] == r.users[i].id;
      }
    }
  }

  /** After a matcher pass over well-formed calls every log entry still names an agent of the call's department. */
  lemma MatchAllKeepsLogConsistent(q: seq<Call>, b: Board)
    requires CallsWellFormed(q) && LogConsistent(b.users, b.log)
    ensures var r := MatchAll(q, b); LogConsistent(r.users, r.log)
  {
    var r := MatchAll(q, b);
    MatchAllFrame(q, b);
    MatchAllEntries(q, b);
    forall k | 0 <= k < |r.log|
      ensures exists i :: (0 <= i < |r.users| && r.users[i].id == r.log[k].userId &&
        r.users[i].department == DepartmentOf(r.log[k].callId))
    {
      if k < |b.log| {
        assert r.log[k] == b.log[k];
        var i :| 0 <= i < |b.users| && b.users[i].id == b.log[k].userId &&
          b.users[i].department == DepartmentOf(b.log[k].callId);
        assert SameAgent(b.users[i], r.users[i]);
      } else {
        assert MatchedBy(r.log[k], q, b.users, r.users);
        var i, j :| 0 <= i < |b.users| && i < |r.users| && 0 <= j < |q| &&
          r.users[i].id == r.log[k].userId && q[j].id == r.log[k].callId &&
          b.users[i].department == q[j].department &&
          b.users[i].status == Available && r.users[i].status == OnCall;
        assert CallWellFormed(q[j]);
        assert SameAgent(b.users[i], r.users[i]);
      }
    }
  }

  /**
   A resetter pass keeps the invariant and, because every agent on a call is
   logged, leaves every agent `Available`.
   */
  lemma ResetKeepsInvariant(b: Board)
    requires BoardInvariant(b)
    ensures var users := ResetAll(b.users, UserIds(b.log));
      SameRoster(b.users, users) && BoardInvariant(Board(users, b.log)) &&
      forall i :: 0 <= i < |users| ==> users[i].status == Available
  {
    var users := ResetAll(b.users, UserIds(b.log));
    forall k | 0 <= k < |b.log|
      ensures exists i :: (0 <= i < |users| && users[i].id == b.log[k].userId &&
        users[i].department == DepartmentOf(b.log[k].callId))
    {
      var i :| 0 <= i < |b.users| && b.users[i].id == b.log[k].userId &&
        b.users[i].department == DepartmentOf(b.log[k].callId);
      assert SameAgent(b.users[i], users[i]);
    }
  }

  class DispatchState {
    /** The agent roster. */
    var users: seq<User>
    /** The pending-call queue; its tail is the most recently generated call. */
    var calls: seq<Call>
    /** The assignment log. */
    var assignedCalls: seq<AssignedCall>

    ghost predicate Valid()
      reads this
    {
      SameRoster(CreateUsers(), users) && CallsWellFormed(calls) && BoardInvariant(Board(users, assignedCalls))
    }

    /** Process start: the seed roster, an empty queue and an empty log. */
    constructor ()
      ensures Valid()
      ensures users == CreateUsers() && calls == [] && assignedCalls == []
    {
      users := CreateUsers();
      calls := [];
      assignedCalls := [];
    }

    /** One generator tick: a call with the drawn id and its department joins the tail of the queue. */
    method GenerateCall(id: int, details: string)
      requires Valid()
      requires MinCallId <= id < MaxCallId
      modifies this
      ensures Valid()
      ensures calls == old(calls) + [Call(id, details, DepartmentOf(id))]
      ensures users == old(users) && assignedCalls == old(assignedCalls)
    {
      var department := DepartmentOf(id);
      calls := calls + [Call(id, details, department)];
    }

    /**
     One matcher tick: pop calls from the tail until the queue is empty; each
     goes to the first available agent of its department, or is dropped.
     */
    method MatchCalls()
      requires Valid()
      modifies this
      ensures Valid()
      ensures calls == []
      ensures Board(users, assignedCalls) == MatchAll(old(calls), Board(old(users), old(assignedCalls)))
      ensures MatcherStep(old(users), users) && old(assignedCalls) <= assignedCalls
    {
      ghost var q0, b0 := calls, Board(users, assignedCalls);
      while calls != []
        invariant MatchAll(calls, Board(users, assignedCalls)) == MatchAll(q0, b0)
        decreases |calls|
      {
        var call := calls[|calls| - 1];
        calls := calls[..|calls| - 1];
        var found := FindAgent(users, call.department);
        if found.Some? {
          var i := found.value;
          var agent := users[i];
          users := users[i := agent.(status := OnCall)];
          assignedCalls := assignedCalls + [AssignedCall(agent.id, call.id)];
        }
      }
      MatchAllFrame(q0, b0);
      MatchAllKeepsOnCallLogged(q0, b0);
      MatchAllKeepsLogConsistent(q0, b0);
    }

    /** One resetter tick: every agent whose id occurs in the log becomes `Available`. */
    method ResetStatuses()
      requires Valid()
      modifies this
      ensures Valid()
      ensures users == ResetAll(old(users), UserIds(assignedCalls))
      ensures calls == old(calls) && assignedCalls == old(assignedCalls)
      ensures forall i :: 0 <= i < |users| ==> users[i].status == Available
    {
      var ids := UserIds(assignedCalls);
      var roster := users;
      for i := 0 to |roster|
        invariant |roster| == |users|
        invariant forall j :: 0 <= j < i ==> roster[j] == ResetOne(users[j], ids)
        invariant forall j :: i <= j < |roster| ==> roster[j] == users[j]
      {
        if roster[i].id in ids {
          roster := roster[i := roster[i].(status := Available)];
        }
      }
      ghost var spec := ResetAll(users, ids);
      forall j | 0 <= j < |roster| ensures roster[j] == spec[j] {
        assert SameAgent(users[j], spec[j]);
      }
      assert roster == spec;
      ResetKeepsInvariant(Board(users, assignedCalls));
      SameRosterTransitive(CreateUsers(), users, roster);
      users := roster;
    }
  }

  /**
   A call whose department has an available agent is assigned, that agent
   goes on call, and the next resetter tick frees the agent while the log
   keeps the assignment.
   */
  method AssignAndReleaseScenario()
  {
    var s := new DispatchState();
    s.GenerateCall(11, "Call details for ID 11");
    assert s.calls == [Call(11, "Call details for ID 11", Renewal)];
    s.MatchCalls();
    assert s.calls == [] && s.assignedCalls == [AssignedCall(2, 11)];
    assert s.users[1].status == OnCall;
    s.ResetStatuses();
    assert s.users[1].status == Available && s.assignedCalls == [AssignedCall(2, 11)];
  }

  /** A call that finds no available agent of its department leaves the queue without an assignment. */
  method UnmatchedCallDroppedScenario()
  {
    var s := new DispatchState();
    var first := Call(5, "Call details for ID 5", Sales);
    s.GenerateCall(5, first.details);
    assert s.calls == [first];
    assert FirstEligible(CreateUsers(), Sales) == Some(0);
    s.MatchCalls();
    assert s.assignedCalls == [AssignedCall(1, 5)] && s.users[0].status == OnCall;
    ghost var busy := s.users;
    var second := Call(10, "Call details for ID 10", Sales);
    s.GenerateCall(10, second.details);
    assert s.calls == [second];
    assert FirstEligible(busy, Sales) == None by {
      SeedRosterOnePerDepartment();
      assert SameRoster(CreateUsers(), busy);
    }
    assert MatchOne(second, Board(busy, [AssignedCall(1, 5)])) == Board(busy, [AssignedCall(1, 5)]);
    s.MatchCalls();
    assert s.calls == [] && s.assignedCalls == [AssignedCall(1, 5)];
  }
}
