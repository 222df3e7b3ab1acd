/** The rule-enforcing layer of main.py: every INSERT, UPDATE and DELETE the
    program issues, each as one atomic transition of the database.  A
    transition either commits all of its effect (cascades included) or leaves
    the tables exactly as they were, and each keeps `Consistent`. */
module Rules {
  import opened Schema
  import opened Identifiers

  /** The database after a statement, and what the statement reports. */
  datatype Step<+R> = Step(after: Tables, result: R)

  /** What `change_mission_status` does: update the row, or refuse. */
  datatype Outcome = Applied | Refused(reason: Error)

  // ---------------------------------------------------------------------------
  // Row-level helpers: UPDATE touches every matching row, DELETE keeps the rest
  // ---------------------------------------------------------------------------

  /** The rows an UPDATE ... WHERE touches (its rowcount). */
  function MatchCount(agents: seq<Agent>, ref: AgentRef): nat
  {
    if agents == [] then 0
    else (if Matches(agents[0], ref) then 1 else 0) + MatchCount(agents[1..], ref)
  }

  lemma {:induction false} MatchCountZero(agents: seq<Agent>, ref: AgentRef)
    ensures MatchCount(agents, ref) == 0 <==> forall k :: 0 <= k < |agents| ==> !Matches(agents[k], ref)
  {
    if agents != [] {
      MatchCountZero(agents[1..], ref);
      assert forall k :: 1 <= k < |agents| ==> agents[k] == agents[1..][k - 1];
    }
  }

  /** Two agent tables with the same rows apart from rank, skill and alive. */
  predicate SameKeys(before: seq<Agent>, after: seq<Agent>)
  {
    && |after| == |before|
    && forall k :: 0 <= k < |before| ==> after[k].id == before[k].id && after[k].codename == before[k].codename
  }

  lemma SameKeysExist(before: seq<Agent>, after: seq<Agent>)
    requires SameKeys(before, after)
    ensures forall id :: AgentExists(after, id) <==> AgentExists(before, id)
    ensures forall c :: CodenameTaken(after, c) <==> CodenameTaken(before, c)
  {
    forall id
      ensures AgentExists(after, id) <==> AgentExists(before, id)
    {
      if AgentExists(after, id) {
        var a :| a in after && a.id == id;
        var k :| 0 <= k < |after| && after[k] == a;
        assert before[k] in before;
      }
      if AgentExists(before, id) {
        var a :| a in before && a.id == id;
        var k :| 0 <= k < |before| && before[k] == a;
        assert after[k] in after;
      }
    }
    forall c
      ensures CodenameTaken(after, c) <==> CodenameTaken(before, c)
    {
      if CodenameTaken(after, c) {
        var a :| a in after && a.codename == c;
        var k :| 0 <= k < |after| && after[k] == a;
        assert before[k] in before;
      }
      if CodenameTaken(before, c) {
        var a :| a in before && a.codename == c;
        var k :| 0 <= k < |before| && before[k] == a;
        assert after[k] in after;
      }
    }
  }

  /** Rewriting columns other than id and codename keeps the keys consistent. */
  lemma SameKeysConsistent(t: Tables, agents: seq<Agent>)
    requires Consistent(t)
    requires SameKeys(t.agents, agents)
    requires forall a :: a in agents ==> a.rank >= MinRank
    ensures Consistent(t.(agents := agents))
  {
    var u := t.(agents := agents);
    SameKeysExist(t.agents, agents);
    assert ReferencesResolve(u);
    SameKeysUnique(t.agents, agents);
    SameKeysBounded(t.agents, agents, t.agentSeq);
  }

  lemma SameKeysUnique(before: seq<Agent>, after: seq<Agent>)
    requires SameKeys(before, after)
    requires UniqueCodenames(before)
    ensures UniqueCodenames(after)
  {
    forall a, b | a in after && b in after && a.codename == b.codename
      ensures a.id == b.id
    {
      var i :| 0 <= i < |after| && after[i] == a;
      var j :| 0 <= j < |after| && after[j] == b;
      assert before[i] in before && before[j] in before;
    }
  }

  lemma SameKeysBounded(before: seq<Agent>, after: seq<Agent>, top: int)
    requires SameKeys(before, after)
    requires forall a :: a in before ==> 1 <= a.id <= top
    ensures forall a :: a in after ==> 1 <= a.id <= top
  {
    forall a | a in after
      ensures 1 <= a.id <= top
    {
      var i :| 0 <= i < |after| && after[i] == a;
      assert before[i] in before;
    }
  }

  /** `UPDATE agents SET alive = 0 WHERE ...`. */
  function SetDead(agents: seq<Agent>, ref: AgentRef): (r: seq<Agent>)
    ensures SameKeys(agents, r)
    ensures forall k :: 0 <= k < |r| ==> r[k].rank == agents[k].rank && r[k].skill == agents[k].skill
    ensures forall k :: 0 <= k < |r| ==> r[k].alive == (agents[k].alive && !Matches(agents[k], ref))
  {
    seq(|agents|, k requires 0 <= k < |agents| =>
      if Matches(agents[k], ref) then agents[k].(alive := false) else agents[k])
  }

  /** `UPDATE agents SET rank = rank + delta WHERE ...`, before the CHECK. */
  function AddRank(agents: seq<Agent>, ref: AgentRef, delta: int): (r: seq<Agent>)
    ensures SameKeys(agents, r)
    ensures forall k :: 0 <= k < |r| ==> r[k].alive == agents[k].alive && r[k].skill == agents[k].skill
    ensures forall k :: 0 <= k < |r| ==> r[k].rank == agents[k].rank + (if Matches(agents[k], ref) then delta else 0)
  {
    seq(|agents|, k requires 0 <= k < |agents| =>
      if Matches(agents[k], ref) then agents[k].(rank := agents[k].rank + delta) else agents[k])
  }

  /** `UPDATE missions SET status = st WHERE id = ?`. */
  function SetStatus(missions: seq<Mission>, id: int, st: Status): (r: seq<Mission>)
    ensures |r| == |missions|
    ensures forall k :: 0 <= k < |r| ==>
      r[k] == if missions[k].id == id then missions[k].(status := st) else missions[k]
  {
    seq(|missions|, k requires 0 <= k < |missions| =>
      if missions[k].id == id then missions[k].(status := st) else missions[k])
  }

  lemma AgentsAscendingTail(agents: seq<Agent>)
    requires agents != []
    ensures AgentIdsAscending(agents) ==> AgentIdsAscending(agents[1..])
  {
  }

  /** Putting the head back in front of rows drawn from the tail keeps id order. */
  lemma AgentsAscendingCons(agents: seq<Agent>, rest: seq<Agent>)
    requires agents != []
    requires forall a :: a in rest ==> a in agents[1..]
    ensures AgentIdsAscending(agents) && AgentIdsAscending(rest) ==> AgentIdsAscending([agents[0]] + rest)
  {
    if AgentIdsAscending(agents) && AgentIdsAscending(rest) {
      var r := [agents[0]] + rest;
      forall i, j | 0 <= i < j < |r|
        ensures r[i].id < r[j].id
      {
        if i == 0 {
          assert r[j] in agents[1..];
          var k :| 0 <= k < |agents[1..]| && agents[1..][k] == r[j];
          assert agents[k + 1] == r[j];
        } else {
          assert r[i] == rest[i - 1] && r[j] == rest[j - 1];
        }
      }
    }
  }

  lemma MissionsAscendingTail(missions: seq<Mission>)
    requires missions != []
    ensures MissionIdsAscending(missions) ==> MissionIdsAscending(missions[1..])
  {
  }

  lemma MissionsAscendingCons(missions: seq<Mission>, rest: seq<Mission>)
    requires missions != []
    requires forall m :: m in rest ==> m in missions[1..]
    ensures MissionIdsAscending(missions) && MissionIdsAscending(rest) ==> MissionIdsAscending([missions[0]] + rest)
  {
    if MissionIdsAscending(missions) && MissionIdsAscending(rest) {
      var r := [missions[0]] + rest;
      forall i, j | 0 <= i < j < |r|
        ensures r[i].id < r[j].id
      {
        if i == 0 {
          assert r[j] in missions[1..];
          var k :| 0 <= k < |missions[1..]| && missions[1..][k] == r[j];
          assert missions[k + 1] == r[j];
        } else {
          assert r[i] == rest[i - 1] && r[j] == rest[j - 1];
        }
      }
    }
  }

  /** Rows of a table in id order with equal ids are the same row. */
  lemma AgentIdsUnique(agents: seq<Agent>, a: Agent, b: Agent)
    requires AgentIdsAscending(agents)
    requires a in agents && b in agents
    ensures a.id == b.id ==> a == b
  {
    var i :| 0 <= i < |agents| && agents[i] == a;
    var j :| 0 <= j < |agents| && agents[j] == b;
  }

  /** The rows `DELETE FROM agents WHERE id = ? AND alive = 0` removes. */
  function DeadWithId(agents: seq<Agent>, id: int): nat
  {
    if agents == [] then 0
    else (if agents[0].id == id && !agents[0].alive then 1 else 0) + DeadWithId(agents[1..], id)
  }

  /** The agent table after `DELETE FROM agents WHERE id = ? AND alive = 0`. */
  function RemoveDead(agents: seq<Agent>, id: int): (r: seq<Agent>)
    ensures forall a :: a in r <==> a in agents && !(a.id == id && !a.alive)
    ensures |r| + DeadWithId(agents, id) == |agents|
    ensures AgentIdsAscending(agents) ==> AgentIdsAscending(r)
  {
    if agents == [] then []
    else
      var rest := RemoveDead(agents[1..], id);
      assert agents == [agents[0]] + agents[1..];
      if agents[0].id == id && !agents[0].alive then
        AgentsAscendingTail(agents);
        rest
      else
        AgentsAscendingCons(agents, rest);
        [agents[0]] + rest
  }

  /** The rows `DELETE FROM missions WHERE status = "failed" AND difficulty > ?` removes. */
  function FailedAboveCount(missions: seq<Mission>, threshold: int): nat
  {
    if missions == [] then 0
    else (if missions[0].status == Failed && missions[0].difficulty > threshold then 1 else 0)
         + FailedAboveCount(missions[1..], threshold)
  }

  /** The mission table after the cascade removes the missions of agent `id`. */
  function RemoveAssignedTo(missions: seq<Mission>, id: int): (r: seq<Mission>)
    ensures forall m :: m in r <==> m in missions && m.assignedAgent != Some(id)
    ensures |r| + AssignedCount(missions, id) == |missions|
    ensures forall x, st :: StatusCount(r, x, st) <= StatusCount(missions, x, st)
    ensures MissionIdsAscending(missions) ==> MissionIdsAscending(r)
  {
    if missions == [] then []
    else
      var rest := RemoveAssignedTo(missions[1..], id);
      assert missions == [missions[0]] + missions[1..];
      if missions[0].assignedAgent == Some(id) then
        MissionsAscendingTail(missions);
        rest
      else
        var r := [missions[0]] + rest;
        assert r[1..] == rest;
        MissionsAscendingCons(missions, rest);
        r
  }

  /** The mission table after `DELETE FROM missions WHERE status = "failed" AND difficulty > ?`. */
  function RemoveFailedAbove(missions: seq<Mission>, threshold: int): (r: seq<Mission>)
    ensures forall m :: m in r <==> m in missions && !(m.status == Failed && m.difficulty > threshold)
    ensures |r| + FailedAboveCount(missions, threshold) == |missions|
    ensures forall x, st :: StatusCount(r, x, st) <= StatusCount(missions, x, st)
    ensures MissionIdsAscending(missions) ==> MissionIdsAscending(r)
  {
    if missions == [] then []
    else
      var rest := RemoveFailedAbove(missions[1..], threshold);
      assert missions == [missions[0]] + missions[1..];
      if missions[0].status == Failed && missions[0].difficulty > threshold then
        MissionsAscendingTail(missions);
        rest
      else
        var r := [missions[0]] + rest;
        assert r[1..] == rest;
        MissionsAscendingCons(missions, rest);
        r
  }

  // ---------------------------------------------------------------------------
  // safe_insert_agent (main.py:51-60)
  // ---------------------------------------------------------------------------

  /** INSERT INTO agents, checked by CHECK(rank >= 1), CHECK(alive IN (0,1))
      and UNIQUE(codename); the new row gets the next AUTOINCREMENT id. */
  function InsertAgent(t: Tables, codename: string, rank: int, skill: string, alive: int): (s: Step<Result<int>>)
    ensures s.result.Ok? <==> rank >= MinRank && (alive == 0 || alive == 1) && !CodenameTaken(t.agents, codename)
    ensures rank < MinRank ==> s.result == Err(InvalidRank)
    ensures rank >= MinRank && alive != 0 && alive != 1 ==> s.result == Err(InvalidAlive)
    ensures rank >= MinRank && CodenameTaken(t.agents, codename) && (alive == 0 || alive == 1) ==>
      s.result == Err(DuplicateCodename)
    ensures s.result.Err? ==> s.after == t
    ensures s.result.Ok? ==>
      && s.result.value == t.agentSeq + 1
      && s.after == t.(agents := t.agents + [Agent(t.agentSeq + 1, codename, rank, skill, alive == 1)],
                       agentSeq := t.agentSeq + 1)
  {
    if rank < MinRank then Step(t, Err(InvalidRank))
    else if alive != 0 && alive != 1 then Step(t, Err(InvalidAlive))
    else if CodenameTaken(t.agents, codename) then Step(t, Err(DuplicateCodename))
    else
      var id := t.agentSeq + 1;
      Step(t.(agents := t.agents + [Agent(id, codename, rank, skill, alive == 1)], agentSeq := id), Ok(id))
  }

  lemma InsertAgentConsistent(t: Tables, codename: string, rank: int, skill: string, alive: int)
    requires Consistent(t)
    ensures Consistent(InsertAgent(t, codename, rank, skill, alive).after)
  {
    var s := InsertAgent(t, codename, rank, skill, alive);
    if s.result.Ok? {
      var a := Agent(t.agentSeq + 1, codename, rank, skill, alive == 1);
      assert forall b :: b in s.after.agents <==> b in t.agents || b == a;
      forall m | m in t.missions && m.assignedAgent.Some?
        ensures AgentExists(s.after.agents, m.assignedAgent.value)
      {
        var b :| b in t.agents && b.id == m.assignedAgent.value;
        assert b in s.after.agents;
      }
    }
  }

  // ---------------------------------------------------------------------------
  // safe_insert_mission (main.py:63-87)
  // ---------------------------------------------------------------------------

  /** The checks `safe_insert_mission` makes in Python before it inserts. */
  function AssignmentRefusal(t: Tables, status: string, agentId: Option<int>): (r: Option<Error>)
    ensures r == None <==>
      agentId.None? ||
      (AgentExists(t.agents, agentId.value) && FindAgent(t.agents, agentId.value).value.alive &&
       !(status == "in progress" && StatusCount(t.missions, agentId.value, InProgress) >= MaxActive))
    ensures agentId.Some? && !AgentExists(t.agents, agentId.value) ==> r == Some(AgentNotFound)
    ensures agentId.Some? && AgentExists(t.agents, agentId.value) && !FindAgent(t.agents, agentId.value).value.alive ==>
      r == Some(AgentDead)
    ensures
      && agentId.Some? && AgentExists(t.agents, agentId.value) && FindAgent(t.agents, agentId.value).value.alive
      && status == "in progress" && StatusCount(t.missions, agentId.value, InProgress) >= MaxActive
      ==> r == Some(CapacityExceeded)
  {
    match agentId
    case None => None
    case Some(id) =>
      match FindAgent(t.agents, id)
      case None => Some(AgentNotFound)
      case Some(a) =>
        if !a.alive then Some(AgentDead)
        else if status == "in progress" && StatusCount(t.missions, id, InProgress) >= MaxActive then Some(CapacityExceeded)
        else None
  }

  /** The Python checks, then INSERT INTO missions under its CHECK constraints. */
  function InsertMission(t: Tables, title: string, difficulty: int, status: string, agentId: Option<int>)
    : (s: Step<Result<int>>)
    ensures s.result.Ok? <==>
      AssignmentRefusal(t, status, agentId) == None &&
      MinDifficulty <= difficulty <= MaxDifficulty && ParseStatus(status).Some?
    ensures agentId.Some? && !AgentExists(t.agents, agentId.value) ==> s.result == Err(AgentNotFound)
    ensures agentId.Some? && AgentExists(t.agents, agentId.value) && !FindAgent(t.agents, agentId.value).value.alive ==>
      s.result == Err(AgentDead)
    ensures AssignmentRefusal(t, status, agentId).Some? ==> s.result == Err(AssignmentRefusal(t, status, agentId).value)
    ensures AssignmentRefusal(t, status, agentId).None? && !(MinDifficulty <= difficulty <= MaxDifficulty) ==>
      s.result == Err(InvalidDifficulty)
    ensures
      && AssignmentRefusal(t, status, agentId).None? && MinDifficulty <= difficulty <= MaxDifficulty
      && ParseStatus(status).None?
      ==> s.result == Err(InvalidStatus)
    ensures s.result.Err? ==> s.after == t
    ensures s.result.Ok? ==>
      && s.result.value == t.missionSeq + 1
      && s.after == t.(missions := t.missions + [Mission(t.missionSeq + 1, title, difficulty, ParseStatus(status).value, agentId)],
                       missionSeq := t.missionSeq + 1)
  {
    match AssignmentRefusal(t, status, agentId)
    case Some(e) => Step(t, Err(e))
    case None =>
      if !(MinDifficulty <= difficulty <= MaxDifficulty) then Step(t, Err(InvalidDifficulty))
      else
        match ParseStatus(status)
        case None => Step(t, Err(InvalidStatus))
        case Some(st) =>
          var id := t.missionSeq + 1;
          Step(t.(missions := t.missions + [Mission(id, title, difficulty, st, agentId)], missionSeq := id), Ok(id))
  }

  /** A new mission never takes an agent past three missions `in progress`. */
  lemma InsertMissionConsistent(t: Tables, title: string, difficulty: int, status: string, agentId: Option<int>)
    requires Consistent(t)
    ensures Consistent(InsertMission(t, title, difficulty, status, agentId).after)
  {
    var s := InsertMission(t, title, difficulty, status, agentId);
    if s.result.Ok? {
      var m := Mission(t.missionSeq + 1, title, difficulty, ParseStatus(status).value, agentId);
      assert forall x :: x in s.after.missions <==> x in t.missions || x == m;
      forall id
        ensures StatusCount(s.after.missions, id, InProgress) <= MaxActive
      {
        StatusCountAppend(t.missions, [m], id, InProgress);
        assert StatusCount([m], id, InProgress) == Hit(m, id, InProgress);
      }
    }
  }

  // ---------------------------------------------------------------------------
  // mark_agent_dead (main.py:152-161)
  // ---------------------------------------------------------------------------

  /** Sets alive = 0 on every matching agent; reports how many rows matched. */
  function MarkAgentDead(t: Tables, ref: AgentRef): (s: Step<nat>)
    ensures s.after.missions == t.missions
    ensures s.result == MatchCount(t.agents, ref)
    ensures SameKeys(t.agents, s.after.agents)
    ensures forall k :: 0 <= k < |t.agents| ==>
      s.after.agents[k].rank == t.agents[k].rank && s.after.agents[k].skill == t.agents[k].skill &&
      s.after.agents[k].alive == (t.agents[k].alive && !Matches(t.agents[k], ref))
    ensures s.result == 0 ==> s.after == t
    ensures s.after.agentSeq == t.agentSeq && s.after.missionSeq == t.missionSeq
  {
    var agents := SetDead(t.agents, ref);
    if MatchCount(t.agents, ref) == 0 then
      MatchCountZero(t.agents, ref);
      assert agents == t.agents;
      Step(t.(agents := agents), 0)
    else
      Step(t.(agents := agents), MatchCount(t.agents, ref))
  }

  /** Marking an agent dead twice leaves the same database as doing it once. */
  lemma MarkAgentDeadIdempotent(t: Tables, ref: AgentRef)
    ensures MarkAgentDead(MarkAgentDead(t, ref).after, ref).after == MarkAgentDead(t, ref).after
  {
    var once := MarkAgentDead(t, ref).after;
    var twice := MarkAgentDead(once, ref).after;
    assert twice.agents == once.agents;
  }

  lemma MarkAgentDeadConsistent(t: Tables, ref: AgentRef)
    requires Consistent(t)
    ensures Consistent(MarkAgentDead(t, ref).after)
  {
    var s := MarkAgentDead(t, ref);
    forall a | a in s.after.agents
      ensures a.rank >= MinRank
    {
      var k :| 0 <= k < |s.after.agents| && s.after.agents[k] == a;
      assert t.agents[k] in t.agents;
    }
    SameKeysConsistent(t, s.after.agents);
  }

  // ---------------------------------------------------------------------------
  // promote_agent (main.py:174-183)
  // ---------------------------------------------------------------------------

  /** Adds `delta` to the rank of every matching agent.  If any new rank
      breaks CHECK(rank >= 1) the UPDATE fails as a whole. */
  function PromoteAgent(t: Tables, ref: AgentRef, delta: int): (s: Step<Result<nat>>)
    ensures s.result.Err? <==> exists k :: 0 <= k < |t.agents| && Matches(t.agents[k], ref) && t.agents[k].rank + delta < MinRank
    ensures s.result.Err? ==> s.result.error == InvalidRank && s.after == t
    ensures s.result.Ok? ==> s.result.value == MatchCount(t.agents, ref)
    ensures s.after.missions == t.missions
    ensures SameKeys(t.agents, s.after.agents)
    ensures s.result.Ok? ==> forall k :: 0 <= k < |t.agents| ==>
      s.after.agents[k].alive == t.agents[k].alive && s.after.agents[k].skill == t.agents[k].skill &&
      s.after.agents[k].rank == t.agents[k].rank + (if Matches(t.agents[k], ref) then delta else 0)
    ensures s.after.agentSeq == t.agentSeq && s.after.missionSeq == t.missionSeq
  {
    var agents := AddRank(t.agents, ref, delta);
    // CHECK(rank >= 1) is evaluated on each row the UPDATE writes
    if exists k :: 0 <= k < |agents| && Matches(t.agents[k], ref) && agents[k].rank < MinRank
    then Step(t, Err(InvalidRank))
    else Step(t.(agents := agents), Ok(MatchCount(t.agents, ref)))
  }

  /** An unmatched identifier changes nothing. */
  lemma PromoteUnmatched(t: Tables, ref: AgentRef, delta: int)
    requires forall a :: a in t.agents ==> !Matches(a, ref)
    ensures PromoteAgent(t, ref, delta) == Step(t, Ok(0))
  {
    var s := PromoteAgent(t, ref, delta);
    MatchCountZero(t.agents, ref);
    assert s.result.Ok?;
    assert s.after.agents == t.agents;
  }

  lemma PromoteAgentConsistent(t: Tables, ref: AgentRef, delta: int)
    requires Consistent(t)
    ensures Consistent(PromoteAgent(t, ref, delta).after)
  {
    var s := PromoteAgent(t, ref, delta);
    if s.result.Ok? {
      forall a | a in s.after.agents
        ensures a.rank >= MinRank
      {
        var k :| 0 <= k < |s.after.agents| && s.after.agents[k] == a;
        assert t.agents[k] in t.agents;
      }
      SameKeysConsistent(t, s.after.agents);
    }
  }

  // ---------------------------------------------------------------------------
  // delete_dead_agent_by_id (main.py:164-171), with ON DELETE CASCADE (main.py:38)
  // ---------------------------------------------------------------------------

  /** Deletes the agent only when it is dead, with all of its missions;
      reports how many agent rows went. */
  function DeleteDeadAgent(t: Tables, id: int): (s: Step<nat>)
    ensures s.result == DeadWithId(t.agents, id)
    ensures forall a :: a in s.after.agents <==> a in t.agents && !(a.id == id && !a.alive)
    ensures s.result > 0 ==> forall m :: m in s.after.missions <==> m in t.missions && m.assignedAgent != Some(id)
    ensures s.result == 0 ==> s.after == t
    ensures s.after.agentSeq == t.agentSeq && s.after.missionSeq == t.missionSeq
  {
    var agents := RemoveDead(t.agents, id);
    var removed := DeadWithId(t.agents, id);
    if removed == 0 then
      assert agents == t.agents by { RemoveNothing(t.agents, id); }
      Step(t, 0)
    else
      Step(t.(agents := agents, missions := RemoveAssignedTo(t.missions, id)), removed)
  }

  lemma {:induction false} RemoveNothing(agents: seq<Agent>, id: int)
    requires DeadWithId(agents, id) == 0
    ensures RemoveDead(agents, id) == agents
  {
    if agents != [] {
      RemoveNothing(agents[1..], id);
      assert [agents[0]] + agents[1..] == agents;
    }
  }

  lemma {:induction false} DeadWithIdZero(agents: seq<Agent>, id: int)
    ensures DeadWithId(agents, id) == 0 <==> forall a :: a in agents ==> !(a.id == id && !a.alive)
  {
    if agents != [] {
      DeadWithIdZero(agents[1..], id);
      assert agents == [agents[0]] + agents[1..];
    }
  }

  /** A living or unknown agent is not deleted: rowcount 0, nothing changes. */
  lemma DeleteLivingOrUnknown(t: Tables, id: int)
    requires forall a :: a in t.agents && a.id == id ==> a.alive
    ensures DeleteDeadAgent(t, id) == Step(t, 0)
  {
    DeadWithIdZero(t.agents, id);
  }

  /** After deleting a dead agent, neither it nor any mission that referenced it remains. */
  lemma DeleteDeadAgentCascades(t: Tables, id: int)
    requires Consistent(t)
    requires exists a :: a in t.agents && a.id == id && !a.alive
    ensures DeleteDeadAgent(t, id).result == 1
    ensures !AgentExists(DeleteDeadAgent(t, id).after.agents, id)
    ensures forall m :: m in DeleteDeadAgent(t, id).after.missions ==> m.assignedAgent != Some(id)
  {
    var a :| a in t.agents && a.id == id && !a.alive;
    var s := DeleteDeadAgent(t, id);
    DeadWithIdZero(t.agents, id);
    forall b | b in s.after.agents
      ensures b.id != id
    {
      AgentIdsUnique(t.agents, a, b);
    }
    DeadWithIdAtMostOne(t.agents, id);
  }

  lemma {:induction false} DeadWithIdAtMostOne(agents: seq<Agent>, id: int)
    requires AgentIdsAscending(agents)
    ensures DeadWithId(agents, id) <= 1
  {
    if agents != [] {
      DeadWithIdAtMostOne(agents[1..], id);
      if agents[0].id == id && !agents[0].alive {
        DeadWithIdZero(agents[1..], id);
        forall b | b in agents[1..]
          ensures b.id != id
        {
          AgentIdsUnique(agents, agents[0], b);
        }
      }
    }
  }

  lemma DeleteDeadAgentConsistent(t: Tables, id: int)
    requires Consistent(t)
    ensures Consistent(DeleteDeadAgent(t, id).after)
  {
    var s := DeleteDeadAgent(t, id);
    if s.result > 0 {
      forall m | m in s.after.missions && m.assignedAgent.Some?
        ensures AgentExists(s.after.agents, m.assignedAgent.value)
      {
        var b :| b in t.agents && b.id == m.assignedAgent.value;
        assert b in s.after.agents;
      }
    }
  }

  // ---------------------------------------------------------------------------
  // change_mission_status (main.py:215-239)
  // ---------------------------------------------------------------------------

  /** Validates the status text, finds the mission, re-checks the capacity of
      its assignee when it moves into `in progress` from another status, then
      updates.  It does not look at whether the assignee is alive. */
  function ChangeMissionStatus(t: Tables, missionId: int, newStatus: string): (s: Step<Outcome>)
    ensures ParseStatus(newStatus).None? ==> s == Step(t, Refused(InvalidStatus))
    ensures ParseStatus(newStatus).Some? && FindMission(t.missions, missionId).None? ==> s == Step(t, Refused(MissionNotFound))
    ensures s.result.Refused? ==> s.after == t
    ensures s.result.Refused? && s.result.reason == CapacityExceeded <==>
      && ParseStatus(newStatus) == Some(InProgress)
      && FindMission(t.missions, missionId).Some?
      && var m := t.missions[FindMission(t.missions, missionId).value];
      && m.assignedAgent.Some? && m.status != InProgress
      && StatusCount(t.missions, m.assignedAgent.value, InProgress) >= MaxActive
    ensures s.result.Refused? <==>
      || ParseStatus(newStatus).None?
      || FindMission(t.missions, missionId).None?
      || (&& ParseStatus(newStatus) == Some(InProgress)
          && var m := t.missions[FindMission(t.missions, missionId).value];
          && m.assignedAgent.Some? && m.status != InProgress
          && StatusCount(t.missions, m.assignedAgent.value, InProgress) >= MaxActive)
    ensures s.result == Applied ==>
      s.after == t.(missions := SetStatus(t.missions, missionId, ParseStatus(newStatus).value))
  {
    match ParseStatus(newStatus)
    case None => Step(t, Refused(InvalidStatus))
    case Some(st) =>
      match FindMission(t.missions, missionId)
      case None => Step(t, Refused(MissionNotFound))
      case Some(i) =>
        var m := t.missions[i];
        if st == InProgress && m.assignedAgent.Some?
           && m.status != InProgress && StatusCount(t.missions, m.assignedAgent.value, InProgress) >= MaxActive
        then Step(t, Refused(CapacityExceeded))
        else Step(t.(missions := SetStatus(t.missions, missionId, st)), Applied)
  }

  /** With unique mission ids the UPDATE changes that one row's status and nothing else. */
  lemma ChangeMissionStatusOnlyThatRow(t: Tables, missionId: int, newStatus: string)
    requires Consistent(t)
    requires ChangeMissionStatus(t, missionId, newStatus).result == Applied
    ensures FindMission(t.missions, missionId).Some?
    ensures var i := FindMission(t.missions, missionId).value;
      ChangeMissionStatus(t, missionId, newStatus).after
        == t.(missions := t.missions[i := t.missions[i].(status := ParseStatus(newStatus).value)])
  {
    var i := FindMission(t.missions, missionId).value;
    var st := ParseStatus(newStatus).value;
    assert SetStatus(t.missions, missionId, st) == t.missions[i := t.missions[i].(status := st)];
  }

  /** The outcome does not depend on the agents table at all: in particular a
      mission assigned to a dead agent can still be moved into `in progress`. */
  lemma ChangeMissionStatusIgnoresAgents(t: Tables, agents: seq<Agent>, missionId: int, newStatus: string)
    ensures ChangeMissionStatus(t.(agents := agents), missionId, newStatus).result
         == ChangeMissionStatus(t, missionId, newStatus).result
  {
  }

  /** A mission of a dead agent, below capacity, is moved into `in progress`. */
  lemma DeadAgentMissionCanStart(t: Tables, missionId: int)
    requires FindMission(t.missions, missionId).Some?
    requires var m := t.missions[FindMission(t.missions, missionId).value];
      && m.assignedAgent.Some? && StatusCount(t.missions, m.assignedAgent.value, InProgress) < MaxActive
      && AgentExists(t.agents, m.assignedAgent.value) && !FindAgent(t.agents, m.assignedAgent.value).value.alive
    ensures ChangeMissionStatus(t, missionId, "in progress").result == Applied
  {
    assert ParseStatus("in progress") == Some(InProgress);
  }

  lemma ChangeMissionStatusConsistent(t: Tables, missionId: int, newStatus: string)
    requires Consistent(t)
    ensures Consistent(ChangeMissionStatus(t, missionId, newStatus).after)
  {
    var s := ChangeMissionStatus(t, missionId, newStatus);
    if s.result == Applied {
      ChangeMissionStatusOnlyThatRow(t, missionId, newStatus);
      var i := FindMission(t.missions, missionId).value;
      var new_m := t.missions[i].(status := ParseStatus(newStatus).value);
      var ms := t.missions[i := new_m];
      forall id
        ensures StatusCount(ms, id, InProgress) <= MaxActive
      {
        StatusCountUpdate(t.missions, i, new_m, id, InProgress);
      }
      StatusRewriteConsistent(t, i, ParseStatus(newStatus).value);
    }
  }

  /** Rewriting one mission's status keeps every constraint but capacity. */
  lemma StatusRewriteConsistent(t: Tables, i: nat, st: Status)
    requires Consistent(t) && i < |t.missions|
    requires WithinCapacity(t.missions[i := t.missions[i].(status := st)])
    ensures Consistent(t.(missions := t.missions[i := t.missions[i].(status := st)]))
  {
    var ms := t.missions[i := t.missions[i].(status := st)];
    forall m | m in ms
      ensures && 1 <= m.id <= t.missionSeq
              && MinDifficulty <= m.difficulty <= MaxDifficulty
              && (m.assignedAgent.Some? ==> AgentExists(t.agents, m.assignedAgent.value))
    {
      var k :| 0 <= k < |ms| && ms[k] == m;
      assert t.missions[k] in t.missions;
    }
  }

  // ---------------------------------------------------------------------------
  // delete_failed_missions_above_difficulty (main.py:255-262)
  // ---------------------------------------------------------------------------

  /** Deletes every failed mission harder than `threshold`; reports how many. */
  function DeleteFailedMissionsAbove(t: Tables, threshold: int): (s: Step<nat>)
    ensures s.after.agents == t.agents
    ensures forall m :: m in s.after.missions <==> m in t.missions && !(m.status == Failed && m.difficulty > threshold)
    ensures s.result == FailedAboveCount(t.missions, threshold)
    ensures |s.after.missions| + s.result == |t.missions|
    ensures s.after.agentSeq == t.agentSeq && s.after.missionSeq == t.missionSeq
  {
    Step(t.(missions := RemoveFailedAbove(t.missions, threshold)), FailedAboveCount(t.missions, threshold))
  }

  lemma DeleteFailedMissionsAboveConsistent(t: Tables, threshold: int)
    requires Consistent(t)
    ensures Consistent(DeleteFailedMissionsAbove(t, threshold).after)
  {
  }
}
