/** Concrete scenarios of the capacity, dead-agent and purge rules, and of the best success rate. */
module Scenarios {
  import opened Schema
  import opened Identifiers
  import opened Rules
  import Analytics

  const Shadow: Agent := Agent(1, "Тень", 5, "взлом систем", true)

  /** Тень holds three missions `in progress` and one planned. */
  const Busy: Tables := Tables(
    [Shadow],
    [ Mission(1, "Украсть кредиты корпорации", 6, InProgress, Some(1)),
      Mission(2, "Кража данных корпорации", 9, InProgress, Some(1)),
      Mission(3, "Установить маяк", 4, InProgress, Some(1)),
      Mission(4, "Саботаж серверов", 10, Planned, Some(1)) ],
    1, 4)

  /** A fourth active mission is refused, by status change or by insertion,
      and the refusal leaves the tables as they were. */
  lemma CapacityScenario()
    ensures ChangeMissionStatus(Busy, 4, "in progress") == Step(Busy, Refused(CapacityExceeded))
    ensures InsertMission(Busy, "Спасти агента", 6, "in progress", Some(1)) == Step(Busy, Err(CapacityExceeded))
    ensures InsertMission(Busy, "Спасти агента", 6, "planned", Some(1)).result == Ok(5)
  {
    assert StatusCount(Busy.missions, 1, InProgress) == 3;
  }

  /** A dead agent gets no mission, and only then can be deleted, with its missions. */
  lemma DeadAgentScenario()
    ensures InsertMission(MarkAgentDead(Busy, ByCodename("Тень")).after, "Test", 5, "in progress", Some(1)).result
         == Err(AgentDead)
    ensures DeleteDeadAgent(Busy, 1) == Step(Busy, 0)
    ensures DeleteDeadAgent(MarkAgentDead(Busy, ById(1)).after, 1).result == 1
    ensures DeleteDeadAgent(MarkAgentDead(Busy, ById(1)).after, 1).after.missions == []
  {
    var dead := MarkAgentDead(Busy, ById(1)).after;
    assert dead.agents == [Shadow.(alive := false)];
    assert DeadWithId(dead.agents, 1) == 1;
  }

  /** Difficulties {3 failed, 6 failed, 8 planned} with threshold 5: only the 6 goes. */
  lemma PurgeScenario()
    ensures var t := Tables([], [Mission(1, "a", 3, Failed, None), Mission(2, "b", 6, Failed, None),
                                 Mission(3, "c", 8, Planned, None)], 0, 3);
      DeleteFailedMissionsAbove(t, 5)
        == Step(t.(missions := [Mission(1, "a", 3, Failed, None), Mission(3, "c", 8, Planned, None)]), 1)
  {
  }

  /** Two successes out of two beat one success out of two. */
  method HighestRateScenario() returns (best: Option<Analytics.AgentStats>)
    ensures best == Some(Analytics.AgentStats(1, "Оракул", 2, 2, 0))
  {
    var t := Tables(
      [Agent(1, "Оракул", 4, "разведка", true), Agent(2, "Призрак", 2, "инфильтрация", true)],
      [ Mission(1, "a", 3, Success, Some(1)), Mission(2, "b", 3, Success, Some(1)),
        Mission(3, "c", 3, Success, Some(2)), Mission(4, "d", 3, Failed, Some(2)) ],
      2, 4);
    best := Analytics.AgentWithHighestSuccessRate(t);
    var rows := Analytics.StatsTable(t);
    assert rows[0] == Analytics.AgentStats(1, "Оракул", 2, 2, 0);
    assert rows[1] == Analytics.AgentStats(2, "Призрак", 2, 1, 1);
    assert best == Some(rows[0]);
  }
}
