/**
 The availability resetter: the ids collected from the assignment log and
 the roster sweep that makes every logged agent `Available` again.
 */
module Resetting {
  import opened Domain

  /** The `user_id` of every log entry, in log order, duplicates kept. */
  function UserIds(log: seq<AssignedCall>): (ids: seq<int>)
    ensures |ids| == |log|
    ensures forall k :: 0 <= k < |log| ==> ids[k] == log[k].userId
  {
    if log == [] then [] else [log[0].userId] + UserIds(log[1..])
  }

  /** An id occurs among the collected ids exactly when some log entry carries it. */
  lemma UserIdsMembership(log: seq<AssignedCall>, id: int)
    ensures id in UserIds(log) <==> exists k :: 0 <= k < |log| && log[k].userId == id
  {
    var ids := UserIds(log);
    if id in ids {
      var k :| 0 <= k < |ids| && ids[k] == id;
      assert log[k].userId == id;
    }
  }

  /** A log that extends another collects every id the shorter one does. */
  lemma UserIdsGrow(log: seq<AssignedCall>, log': seq<AssignedCall>, id: int)
    requires log <= log'
    requires id in UserIds(log)
    ensures id in UserIds(log')
  {
    UserIdsMembership(log, id);
    var k :| 0 <= k < |log| && log[k].userId == id;
    assert UserIds(log')[k] == id;
  }

  /** The sweep over one agent: an agent whose id was collected becomes `Available`. */
  function ResetOne(u: User, ids: seq<int>): (r: User)
    ensures SameAgent(u, r)
    ensures u.id in ids ==> r.status == Available
    ensures u.id !in ids ==> r == u
  {
    if u.id in ids then u.(status := Available) else u
  }

  /** A resetter pass over the whole roster, front to back. */
  function ResetAll(users: seq<User>, ids: seq<int>): (r: seq<User>)
    ensures |r| == |users|
    ensures forall i :: 0 <= i < |users| ==>
      SameAgent(users[i], r[i]) &&
      r[i].status == (if users[i].id in ids then Available else users[i].status)
  {
    if users == [] then [] else [ResetOne(users[0], ids)] + ResetAll(users[1..], ids)
  }

  /** Resetting twice with the same log is resetting once. */
  lemma ResetIdempotent(users: seq<User>, ids: seq<int>)
    ensures ResetAll(ResetAll(users, ids), ids) == ResetAll(users, ids)
  {
    var once := ResetAll(users, ids);
    var twice := ResetAll(once, ids);
    forall i | 0 <= i < |users| ensures twice[i] == once[i] {
      assert SameAgent(users[i], once[i]) && SameAgent(once[i], twice[i]);
    }
  }

  /** A resetter pass never touches an agent whose id no log entry carries. */
  lemma ResetLeavesUnlogged(users: seq<User>, log: seq<AssignedCall>, i: nat)
    requires i < |users|
    requires forall k :: 0 <= k < |log| ==> log[k].userId != users[i].id
    ensures ResetAll(users, UserIds(log))[i] == users[i]
  {
    UserIdsMembership(log, users[i].id);
  }
}
