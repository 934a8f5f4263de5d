# Call-centre dispatch simulator, modelled in Dafny

The simulator keeps three shared collections: the agent roster (`users`), the pending-call
queue (`calls`) and the assignment log (`assignedCalls`). Three background loops work on them.
The call generator draws a call id and derives the call's department from `id % 5`, then
pushes the call onto the tail of the queue. The assignment matcher pops calls from the tail
until the queue is empty. Each popped call goes to the first roster agent of its department
who is `Available`; that agent goes `OnCall` and the match is logged. The availability
resetter sets every agent whose id occurs in the log back to `Available`.

This project models one pass of each loop's body as a method on the class
`Dispatch.DispatchState`. Each method is proved against a specification function:

- `Matching.MatchAll` specifies the matcher pass.
- `Resetting.ResetAll` specifies the resetter pass.

The lemmas beside them state what a pass changes and what it keeps.

- `domain.dfy` (module `Domain`): the `Status` and `Department` enums; the `User`, `Call` and
  `AssignedCall` records; the id-to-department mapping with Rust's truncating `%`; the seed roster.
- `matching.dfy` (module `Matching`): the first-eligible-agent search, as a function and as the
  scanning loop; the matcher specification; its frame, log, status and service lemmas.
- `resetting.dfy` (module `Resetting`): the user-id collection; the roster sweep; its idempotence.
- `dispatch.dfy` (module `Dispatch`): the state class with one method per tick; the object
  invariant `Valid()`, which every tick keeps; two client scenarios.

Three behaviours of the code shape the model:

- The matcher serves calls last-in first-out, popping from the tail of the queue (src/main.rs:158).
- A call that finds no eligible agent is popped and discarded, not kept for a later tick (src/main.rs:159-172).
- The resetter makes a logged agent `Available` whatever its current status (src/main.rs:187-189).

`Matching.TailCallServedFirst` and `Dispatch.UnmatchedCallDroppedScenario` exhibit the first two.

## Model

| member | source | states |
|---|---|---|
| `Domain.TruncRem5` | src/main.rs:134 | the remainder of a signed `%` by 5: its magnitude is below 5, it has the sign of the dividend, and it is congruent to the dividend |
| `Domain.DepartmentOf` | src/main.rs:134-140 | a non-negative id's department is `[Sales, Renewal, Audit, Developer, Hr][id % 5]`; a negative id gives `Sales` when divisible by 5 and the catch-all `Hr` otherwise |
| `Domain.DepartmentOfCode` | src/main.rs:134-140 | for a non-negative id, the department is `d` exactly when `d`'s position in the table is `id % 5` |
| `Domain.EveryDepartmentGenerated` | src/main.rs:130-141 | every department is the department of some id in [1, 9999) |
| `Domain.CreateUsers` | src/main.rs:58-91 | the seed roster has five agents; agent `i` has id `i + 1`, department table entry `i`, and status `Available` |
| `Domain.SeedRosterOnePerDepartment` | src/main.rs:58-91 | the seed roster's ids are pairwise distinct, its departments are pairwise distinct, and each department has its agent |
| `Matching.FirstEligible` | src/main.rs:159-161 | the result is the lowest roster index whose agent has the department and is `Available`, or none when no agent qualifies |
| `Matching.FindAgent` | src/main.rs:159-161 | the front-to-back roster scan returns exactly `FirstEligible`: the lowest eligible index, or none |
| `Matching.MatchOne` | src/main.rs:159-171 | handling one popped call keeps the roster's length and keeps the old log as a prefix of the new one; it defines the policy (first eligible agent goes `OnCall`, one entry is logged, a call with no eligible agent is dropped), whose effects `Matching.MatchOneFrame` states |
| `Matching.MatchAll` | src/main.rs:158-172 | a pass keeps the roster's length and the old log as a prefix; `MatchAllFrame`, `MatchAllEntries`, `MatchAllLogsNewOnCall`, `MatchAllServedPerDepartment` and `MatchAllServes` state its effects, `TailCallServedFirst` its tail-first order |
| `Matching.MatchOneFrame` | src/main.rs:159-168 | one popped call keeps every agent's id, name and department; the only status change is `Available` to `OnCall`; the log grows by at most one entry, as an extension of the old log; each entry costs exactly one available agent |
| `Matching.MatchAllFrame` | src/main.rs:158-172 | a matcher pass keeps roster length and every agent's id, name and department; statuses change only from `Available` to `OnCall`; the old log is a prefix of the new one; new entries number at most the popped calls and at most the initially available agents (new entries + available after = available before) |
| `Matching.MatchAllEntries` | src/main.rs:159-168 | every entry a pass appends names a popped call's id and an agent of that call's department; the agent was `Available` before the pass and is `OnCall` after it |
| `Matching.MatchAllLogsNewOnCall` | src/main.rs:163-168 | every agent a pass moves from `Available` to `OnCall` has an appended log entry with its id |
| `Matching.MatchOneServes` | src/main.rs:159-171 | one popped call is logged exactly when an agent of its department is `Available`, and is dropped exactly when none is; it then takes one such agent, and the number of available agents of every other department is unchanged |
| `Matching.MatchAllServedPerDepartment` | src/main.rs:158-172 | for each department, the agents a pass takes from `Available` number the smaller of the queued calls of that department and its agents that were `Available`; if an agent of the department is still `Available` after the pass, every queued call of that department was served |
| `Matching.MatchAllServes` | src/main.rs:158-168 | when a call of some department is queued and an agent of that department is `Available`, the pass moves some agent of that department from `Available` to `OnCall` |
| `Matching.TailCallServedFirst` | src/main.rs:158-161 | two queued calls of one department compete for a single eligible agent: the call at the tail gets the agent and the other call is dropped unlogged |
| `Resetting.UserIds` | src/main.rs:184 | the collected ids are the log's `user_id`s, one per entry and in log order |
| `Resetting.UserIdsMembership` | src/main.rs:184-187 | an id is among the collected ids exactly when some log entry carries it |
| `Resetting.ResetOne` | src/main.rs:187-189 | one agent keeps its id, name and department; it becomes `Available` when its id was collected and is returned unchanged otherwise |
| `Resetting.ResetAll` | src/main.rs:186-192 | the sweep keeps roster length and every agent's id, name and department; it sets exactly the agents whose id was collected to `Available` and leaves every other status as it was |
| `Resetting.ResetIdempotent` | src/main.rs:186-192 | applying the sweep twice with the same ids equals applying it once |
| `Resetting.ResetLeavesUnlogged` | src/main.rs:186-192 | an agent whose id is in no log entry is left exactly as it was |
| `Dispatch.MatchAllKeepsOnCallLogged` | src/main.rs:158-172 | after a pass, every agent is still `Available` or `OnCall`, and every `OnCall` agent's id is still in the log |
| `Dispatch.MatchAllKeepsLogConsistent` | src/main.rs:129-172 | when all queued calls were generated (id in range, department from the id), every log entry, old or new, names a roster agent whose department is that of the call id it records |
| `Dispatch.ResetKeepsInvariant` | src/main.rs:180-192 | under the invariant, a resetter pass keeps the roster's agents and the invariant, and leaves every agent `Available` |
| `Dispatch.DispatchState.constructor` | src/main.rs:51-56 | the state starts with the seed roster, an empty queue and an empty log, and satisfies the invariant |
| `Dispatch.DispatchState.GenerateCall` | src/main.rs:130-146 | the queue becomes the old queue plus one call at the tail, with the drawn id, the details and `DepartmentOf(id)`; roster and log are unchanged; the invariant is kept |
| `Dispatch.DispatchState.MatchCalls` | src/main.rs:153-172 | the queue ends empty; roster and log become `MatchAll` of the old queue, roster and log; the roster changes only by `Available` to `OnCall`; the old log is a prefix of the new one; the invariant is kept |
| `Dispatch.DispatchState.ResetStatuses` | src/main.rs:179-192 | the roster becomes `ResetAll` of the old roster under the log's user ids; queue and log are unchanged; afterwards every agent is `Available`; the invariant is kept |

The invariant `DispatchState.Valid()` says five things:

- The roster holds the seed agents, compared up to status.
- Every status is `Available` or `OnCall`.
- Every `OnCall` agent's id occurs in the log.
- Every queued call has an id in [1, 9999) and the department derived from that id.
- Every log entry names a roster agent of the department of its call id.

## Left out

- The HTTP server and the read-only `get_users`, `get_calls` and `get_assigned_calls` handlers (src/main.rs:97-127): network I/O and JSON serialisation through libraries outside this model.
- Threads, the endless `loop`s, `thread::sleep`, `RwLock` acquisition and its panics on poisoning, and the `lazy_static` globals (src/main.rs:51-56, 129-201). Each pass holds a write lock on every collection it changes and at least a read lock on every collection it reads (the generator builds its call before taking the queue lock, src/main.rs:130-146; the resetter reads the log under a shared lock, src/main.rs:180-181), so no other pass's writes can interleave with it; one pass is modelled as one method call on a single state object. Interleavings between the three loops are not modelled.
- `random_id` (src/main.rs:93-95): the drawn id is a parameter of `GenerateCall`, with precondition `1 <= id < 9999`.
- The `info!` logging and the `format!` that builds a call's `details` (src/main.rs:133, 148, 170, 190): `details` is an opaque string parameter of `GenerateCall`.
- 32-bit integer width: ids are unbounded `int`s. Ids lie in [1, 9999) and the roster's ids are 1 to 5, so no arithmetic here can overflow an `i32`.
- `Dispatch.DispatchState.ResetStatuses` builds the swept roster in a local sequence, element by element, then stores it in the field. The Rust loop updates the vector in place. Under the write lock, no observer can tell the two apart.
- Tick methods require `Valid()`, the object invariant above. The constructor establishes it and every tick keeps it, so the process's single shared state always satisfies it.
