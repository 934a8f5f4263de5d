/**
 The values of the call-centre dispatch simulator: agent statuses and
 departments, agents (users), calls and assignment records, the mapping
 from a call id to its department, and the seed roster.
 */
module Domain {

  /** An agent's availability. Only `Available` and `OnCall` are ever reached by the dispatch loop. */
  datatype Status = OnCall | Available | Break | LoggedOut

  /** The closed set of departments that partition agents and calls. */
  datatype Department = Sales | Renewal | Audit | Developer | Hr

  /** A roster member. */
  datatype User = User(id: int, name: string, department: Department, status: Status)

  /** A pending call; `details` is opaque descriptive text. */
  datatype Call = Call(id: int, details: string, department: Department)

  /** One completed match of a call to an agent. */
  datatype AssignedCall = AssignedCall(userId: int, callId: int)

  /** The generator draws call ids from the half-open range [MinCallId, MaxCallId). */
  const MinCallId: int := 1
  const MaxCallId: int := 9999

  /** Departments in the order the generator's match lists them: entry k is chosen by remainder k. */
  const DepartmentTable: seq<Department> := [Sales, Renewal, Audit, Developer, Hr]

  /**
   Remainder of `id` divided by 5 as a 32-bit signed `%` computes it: division
   truncates toward zero, so the remainder takes the sign of the dividend.
   */
  function TruncRem5(id: int): (r: int)
    ensures -5 < r < 5
    ensures (id - r) % 5 == 0
    ensures id >= 0 ==> r >= 0
    ensures id <= 0 ==> r <= 0
  {
    if id >= 0 then id % 5 else -((-id) % 5)
  }

  /**
   The department of a call with the given id: a five-way match on the
   truncating remainder, whose catch-all arm is `Hr`.
   */
  function DepartmentOf(id: int): (d: Department)
    ensures 0 <= id ==> d == DepartmentTable[id % 5]
    ensures id < 0 ==> d == (if id % 5 == 0 then Sales else Hr)
  {
    match TruncRem5(id)
    case 0 => Sales
    case 1 => Renewal
    case 2 => Audit
    case 3 => Developer
    case _ => Hr
  }

  /** The position of a department in `DepartmentTable`. */
  function DepartmentCode(d: Department): (k: nat)
    ensures k < |DepartmentTable| && DepartmentTable[k] == d
  {
    match d
    case Sales => 0
    case Renewal => 1
    case Audit => 2
    case Developer => 3
    case Hr => 4
  }

  /** The department of a non-negative id is the one whose code is the id's remainder, and back. */
  lemma DepartmentOfCode(id: int, d: Department)
    requires 0 <= id
    ensures DepartmentOf(id) == d <==> DepartmentCode(d) == id % 5
  {
    if DepartmentOf(id) == d {
      assert DepartmentTable[id % 5] == DepartmentTable[DepartmentCode(d)];
    }
  }

  /** Every department is the department of some id the generator can draw. */
  lemma EveryDepartmentGenerated(d: Department)
    ensures exists id :: MinCallId <= id < MaxCallId && DepartmentOf(id) == d
  {
    var id := DepartmentCode(d) + 5;
    DepartmentOfCode(id, d);
    assert MinCallId <= id < MaxCallId && DepartmentOf(id) == d;
  }

  /** Two records describe the same agent: everything but the status agrees. */
  predicate SameAgent(x: User, y: User) {
    x.id == y.id && x.name == y.name && x.department == y.department
  }

  /** Two rosters hold the same agents, position by position, up to their statuses. */
  predicate SameRoster(a: seq<User>, b: seq<User>) {
    |a| == |b| && forall i :: 0 <= i < |a| ==> SameAgent(a[i], b[i])
  }

  lemma SameRosterTransitive(a: seq<User>, b: seq<User>, c: seq<User>)
    requires SameRoster(a, b) && SameRoster(b, c)
    ensures SameRoster(a, c)
  {
  }

  /** The fixed roster the process starts with. */
  function CreateUsers(): (r: seq<User>)
    ensures |r| == |DepartmentTable|
    ensures forall i :: 0 <= i < |r| ==>
      r[i].id == i + 1 && r[i].department == DepartmentTable[i] && r[i].status == Available
  {
    [ User(1, "Alice", Sales, Available),
      User(2, "Bob", Renewal, Available),
      User(3, "Charlie", Audit, Available),
      User(4, "David", Developer, Available),
      User(5, "Eve", Hr, Available) ]
  }

  /**
   The seed roster has pairwise distinct ids and exactly one agent per
   department: the one at the department's position in `DepartmentTable`.
   */
  lemma SeedRosterOnePerDepartment()
    ensures forall i, j :: 0 <= i < j < |CreateUsers()| ==> CreateUsers()[i].id != CreateUsers()[j].id
    ensures forall d: Department :: CreateUsers()[DepartmentCode(d)].department == d
    ensures forall i, j :: 0 <= i < j < |CreateUsers()| ==>
      CreateUsers()[i].department != CreateUsers()[j].department
  {
    var r := CreateUsers();
    forall i, j | 0 <= i < j < |r| ensures r[i].department != r[j].department {
      assert DepartmentCode(r[i].department) == i && DepartmentCode(r[j].department) == j;
    }
  }
}
