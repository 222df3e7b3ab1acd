/** The listing queries of main.py: `list_agents` (main.py:123-129),
    `list_alive_agents_with_rank_above` (main.py:132-137),
    `list_missions_with_agents` (main.py:188-198) and
    `missions_with_max_difficulty` (main.py:201-212), each a pure function of
    the database snapshot. */
module Queries {
  import opened Schema
  import opened Sequences

  function RankOf(a: Agent): int { a.rank }
  function NegatedRankOf(a: Agent): int { -a.rank }

  /** `SELECT * FROM agents ORDER BY rank DESC` (or ASC). */
  function ListAgents(t: Tables, descending: bool): (r: seq<Agent>)
    ensures multiset(r) == multiset(t.agents)
    ensures forall i, j :: 0 <= i < j < |r| ==>
      if descending then r[i].rank >= r[j].rank else r[i].rank <= r[j].rank
  {
    var r := SortDesc(t.agents, if descending then RankOf else NegatedRankOf);
    assert forall i, j :: 0 <= i < j < |r| ==>
      (if descending then RankOf else NegatedRankOf)(r[i]) >= (if descending then RankOf else NegatedRankOf)(r[j]);
    r
  }

  /** `SELECT * FROM agents WHERE alive = 1 AND rank > n ORDER BY rank DESC`. */
  function ListAliveAgentsWithRankAbove(t: Tables, n: int): (r: seq<Agent>)
    ensures forall a :: a in r <==> a in t.agents && a.alive && a.rank > n
    ensures forall a :: multiset(r)[a] == if a.alive && a.rank > n then multiset(t.agents)[a] else 0
    ensures forall i, j :: 0 <= i < j < |r| ==> r[i].rank >= r[j].rank
    ensures |r| <= |t.agents|
  {
    var alive := Filter(t.agents, (a: Agent) => a.alive && a.rank > n);
    var r := SortDesc(alive, RankOf);
    PermutationMembers(r, alive);
    r
  }

  /** A mission with the codename of its agent, NULL when it has none. */
  datatype MissionRow = MissionRow(mission: Mission, agentCodename: Option<string>)

  /** `SELECT m.*, a.codename FROM missions m LEFT JOIN agents a ... ORDER BY m.id`:
      the mission table is kept in id order, so the rows come out in table order. */
  function ListMissionsWithAgents(t: Tables): (r: seq<MissionRow>)
    ensures |r| == |t.missions|
    ensures forall i :: 0 <= i < |r| ==> r[i].mission == t.missions[i]
    ensures forall i :: 0 <= i < |r| ==>
      (r[i].agentCodename.Some? <==> t.missions[i].assignedAgent.Some? && AgentExists(t.agents, t.missions[i].assignedAgent.value))
    ensures forall i :: 0 <= i < |r| && r[i].agentCodename.Some? ==>
      exists a :: a in t.agents && Some(a.id) == t.missions[i].assignedAgent && a.codename == r[i].agentCodename.value
    ensures MissionIdsAscending(t.missions) ==> forall i, j :: 0 <= i < j < |r| ==> r[i].mission.id < r[j].mission.id
  {
    seq(|t.missions|, i requires 0 <= i < |t.missions| =>
      MissionRow(t.missions[i], CodenameOf(t.agents, t.missions[i].assignedAgent)))
  }

  /** `SELECT MAX(difficulty) FROM missions`: NULL on an empty table. */
  function HighestDifficulty(missions: seq<Mission>): (d: Option<int>)
    ensures d.None? <==> missions == []
    ensures d.Some? ==> exists m :: m in missions && m.difficulty == d.value
    ensures d.Some? ==> forall m :: m in missions ==> m.difficulty <= d.value
  {
    if missions == [] then None
    else
      assert forall m :: m in missions <==> m == missions[0] || m in missions[1..];
      match HighestDifficulty(missions[1..])
      case None => Some(missions[0].difficulty)
      case Some(d) => if missions[0].difficulty >= d then Some(missions[0].difficulty) else Some(d)
  }

  /** The maximum difficulty and every mission that has it, with its agent's codename. */
  function MissionsWithMaxDifficulty(t: Tables): (r: (Option<int>, seq<MissionRow>))
    ensures r.0.None? <==> t.missions == []
    ensures r.0.Some? ==> forall m :: m in t.missions ==> m.difficulty <= r.0.value
    ensures forall row :: row in r.1 <==> row in ListMissionsWithAgents(t) && Some(row.mission.difficulty) == r.0
    ensures forall row ::
      multiset(r.1)[row] == (if Some(row.mission.difficulty) == r.0 then multiset(ListMissionsWithAgents(t))[row] else 0)
    ensures r.0.Some? ==> r.1 != []
  {
    var maxd := HighestDifficulty(t.missions);
    HardestListed(t);
    (maxd, Filter(ListMissionsWithAgents(t), (row: MissionRow) => Some(row.mission.difficulty) == maxd))
  }

  /** A non-empty table lists a row at the maximum difficulty. */
  lemma HardestListed(t: Tables)
    ensures HighestDifficulty(t.missions).Some? ==>
      exists row :: row in ListMissionsWithAgents(t) && Some(row.mission.difficulty) == HighestDifficulty(t.missions)
  {
    var maxd := HighestDifficulty(t.missions);
    if maxd.Some? {
      var m :| m in t.missions && m.difficulty == maxd.value;
      var k :| 0 <= k < |t.missions| && t.missions[k] == m;
      assert ListMissionsWithAgents(t)[k] in ListMissionsWithAgents(t);
    }
  }
}
