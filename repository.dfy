/** The mutators of main.py as methods of one database object that changes its
    two tables and AUTOINCREMENT counters in place.  Each method runs the same
    checks as the Python function, in the same order, and commits or returns
    without changing anything; its postcondition says the new state is the
    one `Rules` defines, and that `Valid()` (every schema constraint and the
    capacity rule) still holds. */
module Repository {
  import opened Schema
  import opened Identifiers
  import Rules

  class Database {
    var agents: seq<Agent>
    var missions: seq<Mission>
    var agentSeq: int
    var missionSeq: int

    /** The tables as one value. */
    function Snapshot(): Tables
      reads this
    {
      Tables(agents, missions, agentSeq, missionSeq)
    }

    ghost predicate Valid()
      reads this
    {
      Consistent(Snapshot())
    }

    /** A database whose schema has just been created (`init_db` without seeding). */
    constructor ()
      ensures Valid()
      ensures Snapshot() == Empty
    {
      agents := [];
      missions := [];
      agentSeq := 0;
      missionSeq := 0;
    }

    /** `safe_insert_agent` (main.py:51-60): the new id, or the constraint that failed. */
    method InsertAgent(codename: string, rank: int, skill: string, alive: int) returns (r: Result<int>)
      requires Valid()
      modifies this
      ensures Valid()
      ensures Rules.InsertAgent(old(Snapshot()), codename, rank, skill, alive) == Rules.Step(Snapshot(), r)
    {
      ghost var before := Snapshot();
      if rank < MinRank {
        return Err(InvalidRank);
      }
      if alive != 0 && alive != 1 {
        return Err(InvalidAlive);
      }
      if CodenameTaken(agents, codename) {
        return Err(DuplicateCodename);
      }
      agentSeq := agentSeq + 1;
      agents := agents + [Agent(agentSeq, codename, rank, skill, alive == 1)];
      r := Ok(agentSeq);
      Rules.InsertAgentConsistent(before, codename, rank, skill, alive);
    }

    /** `safe_insert_mission` (main.py:63-87): the agent checks in Python, then
        the INSERT under the schema's CHECK constraints. */
    method InsertMission(title: string, difficulty: int, status: string, assignedAgentId: Option<int>)
      returns (r: Result<int>)
      requires Valid()
      modifies this
      ensures Valid()
      ensures Rules.InsertMission(old(Snapshot()), title, difficulty, status, assignedAgentId) == Rules.Step(Snapshot(), r)
    {
      ghost var before := Snapshot();
      if assignedAgentId.Some? {
        var ag := FindAgent(agents, assignedAgentId.value);
        if ag.None? {
          return Err(AgentNotFound);
        }
        if !ag.value.alive {
          return Err(AgentDead);
        }
        var countInProgress := StatusCount(missions, assignedAgentId.value, InProgress);
        if status == "in progress" && countInProgress >= MaxActive {
          return Err(CapacityExceeded);
        }
      }
      if !(MinDifficulty <= difficulty <= MaxDifficulty) {
        return Err(InvalidDifficulty);
      }
      var st := ParseStatus(status);
      if st.None? {
        return Err(InvalidStatus);
      }
      missionSeq := missionSeq + 1;
      missions := missions + [Mission(missionSeq, title, difficulty, st.value, assignedAgentId)];
      r := Ok(missionSeq);
      Rules.InsertMissionConsistent(before, title, difficulty, status, assignedAgentId);
    }

    /** `mark_agent_dead` (main.py:152-161): the number of rows the UPDATE matched. */
    method MarkAgentDead(identifier: AgentRef) returns (count: nat)
      requires Valid()
      modifies this
      ensures Valid()
      ensures Rules.MarkAgentDead(old(Snapshot()), identifier) == Rules.Step(Snapshot(), count)
    {
      ghost var before := Snapshot();
      count := Rules.MatchCount(agents, identifier);
      agents := Rules.SetDead(agents, identifier);
      Rules.MarkAgentDeadConsistent(before, identifier);
    }

    /** `promote_agent` (main.py:174-183): the rows changed, or InvalidRank when
        CHECK(rank >= 1) rejects the UPDATE. */
    method PromoteAgent(identifier: AgentRef, delta: int) returns (r: Result<nat>)
      requires Valid()
      modifies this
      ensures Valid()
      ensures Rules.PromoteAgent(old(Snapshot()), identifier, delta) == Rules.Step(Snapshot(), r)
    {
      ghost var before := Snapshot();
      var updated := Rules.AddRank(agents, identifier, delta);
      if exists k :: 0 <= k < |updated| && Matches(agents[k], identifier) && updated[k].rank < MinRank {
        return Err(InvalidRank);
      }
      r := Ok(Rules.MatchCount(agents, identifier));
      agents := updated;
      Rules.PromoteAgentConsistent(before, identifier, delta);
    }

    /** `delete_dead_agent_by_id` (main.py:164-171): the agent rows deleted;
        the foreign key's ON DELETE CASCADE removes their missions too. */
    method DeleteDeadAgent(agentId: int) returns (affected: nat)
      requires Valid()
      modifies this
      ensures Valid()
      ensures Rules.DeleteDeadAgent(old(Snapshot()), agentId) == Rules.Step(Snapshot(), affected)
    {
      ghost var before := Snapshot();
      affected := Rules.DeadWithId(agents, agentId);
      if affected > 0 {
        agents := Rules.RemoveDead(agents, agentId);
        missions := Rules.RemoveAssignedTo(missions, agentId);
      }
      Rules.DeleteDeadAgentConsistent(before, agentId);
    }

    /** `change_mission_status` (main.py:215-239). */
    method ChangeMissionStatus(missionId: int, newStatus: string) returns (outcome: Rules.Outcome)
      requires Valid()
      modifies this
      ensures Valid()
      ensures Rules.ChangeMissionStatus(old(Snapshot()), missionId, newStatus) == Rules.Step(Snapshot(), outcome)
    {
      ghost var before := Snapshot();
      var st := ParseStatus(newStatus);
      if st.None? {
        return Rules.Refused(InvalidStatus);
      }
      var found := FindMission(missions, missionId);
      if found.None? {
        return Rules.Refused(MissionNotFound);
      }
      var m := missions[found.value];
      var assignee := m.assignedAgent;
      if st.value == InProgress && assignee.Some? {
        var countInProgress := StatusCount(missions, assignee.value, InProgress);
        var wasInProgress := m.status == InProgress;
        if !wasInProgress && countInProgress >= MaxActive {
          return Rules.Refused(CapacityExceeded);
        }
      }
      missions := Rules.SetStatus(missions, missionId, st.value);
      outcome := Rules.Applied;
      Rules.ChangeMissionStatusConsistent(before, missionId, newStatus);
    }

    /** `delete_failed_missions_above_difficulty` (main.py:255-262): the rows deleted. */
    method DeleteFailedMissionsAbove(threshold: int) returns (deleted: nat)
      requires Valid()
      modifies this
      ensures Valid()
      ensures Rules.DeleteFailedMissionsAbove(old(Snapshot()), threshold) == Rules.Step(Snapshot(), deleted)
    {
      ghost var before := Snapshot();
      deleted := Rules.FailedAboveCount(missions, threshold);
      missions := Rules.RemoveFailedAbove(missions, threshold);
      Rules.DeleteFailedMissionsAboveConsistent(before, threshold);
    }
  }
}
