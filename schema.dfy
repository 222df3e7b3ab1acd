/** The two tables of the roster database, `agents` and `missions`, and the
    constraints their schema declares (main.py:24-39), as values.

    A `Tables` value is one snapshot of the whole database: the rows of each
    table in rowid order, and the AUTOINCREMENT counters that SQLite keeps in
    `sqlite_sequence` (the largest id ever handed out, so ids are never reused). */
module Schema {

  datatype Option<+T> = None | Some(value: T)

  /** The refusals the rule layer can report.  The source prints a message
      and returns None for most of them; the model names each one. */
  datatype Error =
    | DuplicateCodename   // UNIQUE(codename)
    | InvalidRank         // CHECK(rank >= 1)
    | InvalidAlive        // CHECK(alive IN (0,1))
    | InvalidDifficulty   // CHECK(difficulty BETWEEN 1 AND 10)
    | InvalidStatus       // CHECK(status IN (...)) or the status guard
    | AgentNotFound
    | AgentDead
    | CapacityExceeded
    | MissionNotFound

  datatype Result<+T> = Ok(value: T) | Err(error: Error)

  const MinRank: int := 1
  const MinDifficulty: int := 1
  const MaxDifficulty: int := 10
  /** No agent may hold more missions than this in status `in progress`. */
  const MaxActive: nat := 3

  /** The four values CHECK(status IN (...)) admits. */
  datatype Status = Planned | InProgress | Failed | Success

  /** The text stored in the `status` column. */
  function StatusName(s: Status): string
  {
    match s
    case Planned => "planned"
    case InProgress => "in progress"
    case Failed => "failed"
    case Success => "success"
  }

  /** Whether a status text passes the CHECK constraint, and which status it is. */
  function ParseStatus(name: string): (r: Option<Status>)
    ensures r.Some? ==> StatusName(r.value) == name
    ensures forall s :: StatusName(s) == name ==> r == Some(s)
  {
    if name == "planned" then Some(Planned)
    else if name == "in progress" then Some(InProgress)
    else if name == "failed" then Some(Failed)
    else if name == "success" then Some(Success)
    else None
  }

  /** A row of `agents`; `alive` is the 0/1 column as a boolean. */
  datatype Agent = Agent(id: int, codename: string, rank: int, skill: string, alive: bool)

  /** A row of `missions`; `assignedAgent` is the nullable foreign key. */
  datatype Mission = Mission(id: int, title: string, difficulty: int, status: Status, assignedAgent: Option<int>)

  /** The database: both tables in rowid order and their AUTOINCREMENT counters. */
  datatype Tables = Tables(agents: seq<Agent>, missions: seq<Mission>, agentSeq: int, missionSeq: int)

  /** A freshly created database. */
  const Empty: Tables := Tables([], [], 0, 0)

  // ---------------------------------------------------------------------------
  // Lookups (SELECT ... WHERE id = ? / codename = ?)
  // ---------------------------------------------------------------------------

  predicate AgentExists(agents: seq<Agent>, id: int)
  {
    exists a :: a in agents && a.id == id
  }

  predicate CodenameTaken(agents: seq<Agent>, codename: string)
  {
    exists a :: a in agents && a.codename == codename
  }

  /** The first agent row with the given id (`SELECT * ... fetchone()`). */
  function FindAgent(agents: seq<Agent>, id: int): (r: Option<Agent>)
    ensures r.Some? <==> AgentExists(agents, id)
    ensures r.Some? ==> r.value in agents && r.value.id == id
  {
    if agents == [] then None
    else if agents[0].id == id then Some(agents[0])
    else FindAgent(agents[1..], id)
  }

  /** The codename of the agent with the given id, as a LEFT JOIN supplies it. */
  function CodenameOf(agents: seq<Agent>, id: Option<int>): (r: Option<string>)
    ensures r.Some? <==> id.Some? && AgentExists(agents, id.value)
    ensures r.Some? ==> exists a :: a in agents && a.id == id.value && a.codename == r.value
  {
    match id
    case None => None
    case Some(i) =>
      match FindAgent(agents, i)
      case None => None
      case Some(a) => Some(a.codename)
  }

  /** The index of the first mission row with the given id. */
  function FindMission(missions: seq<Mission>, id: int): (r: Option<nat>)
    ensures r.Some? ==> r.value < |missions| && missions[r.value].id == id
    ensures r.Some? ==> forall k :: 0 <= k < r.value ==> missions[k].id != id
    ensures r.None? <==> forall m :: m in missions ==> m.id != id
  {
    if missions == [] then None
    else if missions[0].id == id then Some(0)
    else match FindMission(missions[1..], id)
      case None => None
      case Some(k) => Some(k + 1)
  }

  // ---------------------------------------------------------------------------
  // Counting (SELECT COUNT(*) ... WHERE assigned_agent = ? [AND status = ?])
  // ---------------------------------------------------------------------------

  /** The number of missions assigned to agent `id`. */
  function AssignedCount(missions: seq<Mission>, id: int): nat
  {
    if missions == [] then 0
    else (if missions[0].assignedAgent == Some(id) then 1 else 0) + AssignedCount(missions[1..], id)
  }

  /** The number of missions assigned to agent `id` whose status is `st`. */
  function StatusCount(missions: seq<Mission>, id: int, st: Status): nat
  {
    if missions == [] then 0
    else (if missions[0].assignedAgent == Some(id) && missions[0].status == st then 1 else 0)
         + StatusCount(missions[1..], id, st)
  }

  /** One when `m` is assigned to `id` with status `st`, zero otherwise. */
  function Hit(m: Mission, id: int, st: Status): nat
  {
    if m.assignedAgent == Some(id) && m.status == st then 1 else 0
  }

  lemma {:induction false} StatusCountAppend(ms: seq<Mission>, extra: seq<Mission>, id: int, st: Status)
    ensures StatusCount(ms + extra, id, st) == StatusCount(ms, id, st) + StatusCount(extra, id, st)
  {
    if ms != [] {
      assert (ms + extra)[1..] == ms[1..] + extra;
      StatusCountAppend(ms[1..], extra, id, st);
    } else {
      assert ms + extra == extra;
    }
  }

  /** Replacing one row changes each status count by that row's contribution only. */
  lemma {:induction false} StatusCountUpdate(ms: seq<Mission>, i: nat, m: Mission, id: int, st: Status)
    requires i < |ms|
    ensures StatusCount(ms[i := m], id, st) + Hit(ms[i], id, st) == StatusCount(ms, id, st) + Hit(m, id, st)
  {
    if i > 0 {
      assert ms[i := m][1..] == ms[1..][i - 1 := m];
      StatusCountUpdate(ms[1..], i - 1, m, id, st);
    } else {
      assert ms[i := m][1..] == ms[1..];
    }
  }

  /** An agent's status counts never exceed its mission count. */
  lemma {:induction false} StatusCountsWithinTotal(ms: seq<Mission>, id: int)
    ensures StatusCount(ms, id, Success) + StatusCount(ms, id, Failed) <= AssignedCount(ms, id)
    ensures StatusCount(ms, id, InProgress) <= AssignedCount(ms, id)
  {
    if ms != [] {
      StatusCountsWithinTotal(ms[1..], id);
    }
  }

  /** An agent has no missions exactly when no mission row references it. */
  lemma {:induction false} AssignedCountZero(ms: seq<Mission>, id: int)
    ensures AssignedCount(ms, id) == 0 <==> forall m :: m in ms ==> m.assignedAgent != Some(id)
  {
    if ms != [] {
      AssignedCountZero(ms[1..], id);
      assert forall m :: m in ms ==> m == ms[0] || m in ms[1..];
    }
  }

  // ---------------------------------------------------------------------------
  // The schema's constraints and the rule layer's capacity rule
  // ---------------------------------------------------------------------------

  /** Row order is id order and ids are unique (INTEGER PRIMARY KEY AUTOINCREMENT). */
  predicate AgentIdsAscending(agents: seq<Agent>)
  {
    forall i, j :: 0 <= i < j < |agents| ==> agents[i].id < agents[j].id
  }

  predicate MissionIdsAscending(missions: seq<Mission>)
  {
    forall i, j :: 0 <= i < j < |missions| ==> missions[i].id < missions[j].id
  }

  /** UNIQUE(codename). */
  predicate UniqueCodenames(agents: seq<Agent>)
  {
    forall a, b :: a in agents && b in agents && a.codename == b.codename ==> a.id == b.id
  }

  /** FOREIGN KEY(assigned_agent) REFERENCES agents(id). */
  predicate ReferencesResolve(t: Tables)
  {
    forall m :: m in t.missions && m.assignedAgent.Some? ==> AgentExists(t.agents, m.assignedAgent.value)
  }

  /** The capacity rule: nobody holds more than three missions `in progress`. */
  ghost predicate WithinCapacity(missions: seq<Mission>)
  {
    forall id :: StatusCount(missions, id, InProgress) <= MaxActive
  }

  /** Everything the schema and the rule layer keep true of the database. */
  ghost predicate Consistent(t: Tables)
  {
    && 0 <= t.agentSeq && 0 <= t.missionSeq
    && AgentIdsAscending(t.agents)
    && (forall a :: a in t.agents ==> 1 <= a.id <= t.agentSeq)
    && UniqueCodenames(t.agents)
    && (forall a :: a in t.agents ==> a.rank >= MinRank)
    && MissionIdsAscending(t.missions)
    && (forall m :: m in t.missions ==> 1 <= m.id <= t.missionSeq)
    && (forall m :: m in t.missions ==> MinDifficulty <= m.difficulty <= MaxDifficulty)
    && ReferencesResolve(t)
    && WithinCapacity(t.missions)
  }
}
