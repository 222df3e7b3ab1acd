# Resistance agents and missions — a Dafny model

`main.py` keeps a small SQLite database of resistance **agents** (codename,
rank, skill, alive flag) and **missions** (title, difficulty 1–10, status,
optional assigned agent).  Its core is a rule layer on top of the schema:
codenames are unique, ranks stay at least 1, a dead agent gets no new
mission, no agent holds more than three missions `in progress`, only a dead
agent can be deleted and deleting one removes its missions (ON DELETE
CASCADE).  Around it sit listings and a handful of analytic reports that
group agents with their missions.

The model has these modules:

- `Schema` (`schema.dfy`) — the two tables as values (`Agent`, `Mission`,
  `Tables` with the two AUTOINCREMENT counters), the CHECK constraints as
  constants, the status domain, lookups and per-agent counts, and
  `Consistent`: every schema constraint plus the three-active-missions rule.
- `Identifiers` (`identifiers.dfy`) — how `mark_agent_dead` and
  `promote_agent` read a `codename_or_id` argument.
- `Rules` (`rules.dfy`) — every mutating operation as a pure transition
  `Tables -> Step(after, result)`: the same checks in the same order, the
  same error cases, and on any error the tables unchanged.  Each transition
  is proved to keep `Consistent`.
- `Repository` (`repository.dfy`) — class `Database` whose fields are the two
  tables and counters; its methods perform the mutations in place and are
  proved to reach exactly the state and result `Rules` defines, keeping
  `Valid()`.
- `Sequences` (`sequences.dfy`) — WHERE/HAVING as an order-keeping filter and
  ORDER BY ... DESC as an ordered permutation.
- `Queries` (`queries.dfy`) — the agent and mission listings.
- `Analytics` (`analytics.dfy`) — the grouped reports, and the
  highest-success-rate loop as a method.
- `Scenarios` (`scenarios.dfy`) — the rule scenarios on concrete tables
  (capacity refusal, dead agent, purge of failed missions, best rate).

Errors that `main.py` reports by printing and returning `None` (or by an
uncaught `IntegrityError`) are returned here as an `Error` value naming the
rule that refused the operation.

Two consequences of the code worth stating: `promote_agent` with a negative
delta never takes a rank below 1, because `CHECK(rank >= 1)` (main.py:27)
also applies to UPDATE, so such a promotion fails as a whole and changes
nothing (`Rules.PromoteAgent` returns `InvalidRank`); and
`change_mission_status` never looks at whether the assigned agent is alive
(main.py:226-236), so a dead agent's mission can still be moved into
`in progress` (`Rules.DeadAgentMissionCanStart`).

## Model

| member | source | states |
|---|---|---|
| Schema.ParseStatus | main.py:36 | exactly the four texts `planned`, `in progress`, `failed`, `success` pass the status CHECK, each naming its status, and every status's name reads back as itself |
| Identifiers.ParseRef | main.py:155-158 | a non-empty all-digit text selects by id, every other text selects by codename, with the text itself as the codename |
| Identifiers.DecimalRoundTrip | main.py:155-156 | the decimal text of any id `n` is read back as a selection of id `n` |
| Identifiers.DigitCodenameReadAsId | main.py:177-180 | an agent whose codename is all digits is never selected by its codename: the text is read as an id, which matches the agent only if its id has that value |
| Rules.InsertAgent | main.py:51-60 | the insert succeeds iff rank >= 1, alive is 0 or 1 and the codename is new; a bad rank gives InvalidRank, then a bad alive flag InvalidAlive, and a duplicate codename DuplicateCodename last; on success the row gets id = counter + 1 and is appended; on failure nothing changes |
| Rules.InsertAgentConsistent | main.py:24-30 | inserting an agent keeps every schema constraint: unique codenames, ranks >= 1, ascending ids, resolving references |
| Rules.AssignmentRefusal | main.py:66-78 | an assigned mission passes the Python checks iff the agent exists, is alive and is not asked to take a fourth mission `in progress`; the refusal is AgentNotFound, AgentDead or CapacityExceeded, checked in that order |
| Rules.InsertMission | main.py:63-87 | the insert succeeds iff the assignment checks pass, the difficulty is 1..10 and the status is valid; an unknown agent gives AgentNotFound, a dead one AgentDead, any assignment refusal is returned as is, then a difficulty outside 1..10 gives InvalidDifficulty and an unknown status InvalidStatus; on success the row is appended with id = counter + 1; on failure nothing changes |
| Rules.InsertMissionConsistent | main.py:74-78 | a new mission never takes any agent past three missions `in progress`, and keeps the other constraints |
| Rules.MarkAgentDead | main.py:152-161 | every agent the identifier matches, and only those, has alive cleared; rank, skill, ids, codenames and missions are unchanged; the result is the number of matching rows, 0 meaning nothing changed; both AUTOINCREMENT counters are unchanged |
| Rules.MarkAgentDeadIdempotent | main.py:156-158 | marking the same agent dead twice leaves the same database as marking it once |
| Rules.MarkAgentDeadConsistent | main.py:156-158 | marking agents dead keeps every constraint |
| Rules.PromoteAgent | main.py:174-183 | fails with InvalidRank, changing nothing, iff some matched agent's rank plus delta is below 1; otherwise adds delta to every matched agent's rank and nothing else, reporting the number matched; both AUTOINCREMENT counters are unchanged |
| Rules.PromoteUnmatched | main.py:177-180 | an identifier matching no agent changes nothing and reports 0 |
| Rules.PromoteAgentConsistent | main.py:27 | a promotion never leaves a rank below 1 and keeps every other constraint |
| Rules.DeleteDeadAgent | main.py:164-171 | exactly the rows with that id and alive = 0 are removed; when one is, every mission assigned to it goes too (ON DELETE CASCADE, main.py:38); when none is, nothing changes; the counters are untouched |
| Rules.DeleteLivingOrUnknown | main.py:167 | deleting a living or unknown agent reports 0 and changes nothing |
| Rules.DeleteDeadAgentCascades | main.py:38 | deleting a dead agent reports exactly 1 row, after which neither the agent nor any mission referencing it remains |
| Rules.DeadWithIdAtMostOne | main.py:25 | with unique ids at most one agent row is deleted |
| Rules.DeleteDeadAgentConsistent | main.py:37-38 | after the delete and its cascade every assigned mission still names an existing agent |
| Rules.ChangeMissionStatus | main.py:215-239 | an invalid status text is refused first, then an unknown mission; moving a mission into `in progress` is refused iff it is assigned, not already `in progress`, and its agent has three missions `in progress`; these are the only refusals, so an unassigned mission skips the capacity check; a refusal changes nothing; otherwise the status of the mission with that id is set |
| Rules.ChangeMissionStatusOnlyThatRow | main.py:236 | an applied change rewrites the status of that one mission and nothing else |
| Rules.ChangeMissionStatusIgnoresAgents | main.py:226-236 | the outcome does not depend on the agents table |
| Rules.DeadAgentMissionCanStart | main.py:226-236 | a mission of a dead agent below capacity is moved into `in progress` |
| Rules.ChangeMissionStatusConsistent | main.py:227-235 | a status change never takes an agent past three missions `in progress` |
| Rules.StatusRewriteConsistent | main.py:236 | rewriting one mission's status keeps ids, difficulties and references intact, so the constraints hold whenever capacity does |
| Rules.RemoveAssignedTo | main.py:38 | the cascade keeps exactly the missions not assigned to the deleted agent, in order, removes as many rows as the agent had and never raises a per-agent status count |
| Rules.DeleteFailedMissionsAbove | main.py:255-262 | exactly the failed missions harder than the threshold are removed, the agents and both AUTOINCREMENT counters are unchanged, and the reported count is the number of rows removed |
| Rules.DeleteFailedMissionsAboveConsistent | main.py:258 | the purge keeps every constraint |
| Repository.Database.constructor | main.py:23-40 | a freshly created schema: empty tables, counters at 0, consistent |
| Repository.Database.InsertAgent | main.py:51-60 | the new state and id, or error, are the ones `Rules.InsertAgent` defines, and the database stays valid |
| Repository.Database.InsertMission | main.py:63-87 | the new state and id, or error, are the ones `Rules.InsertMission` defines, and the database stays valid |
| Repository.Database.MarkAgentDead | main.py:152-161 | the new state and count are those of `Rules.MarkAgentDead`; valid |
| Repository.Database.PromoteAgent | main.py:174-183 | the new state and result are those of `Rules.PromoteAgent`; valid |
| Repository.Database.DeleteDeadAgent | main.py:164-171 | the new state, cascade included, and the count are those of `Rules.DeleteDeadAgent`; valid |
| Repository.Database.ChangeMissionStatus | main.py:215-239 | the new state and outcome are those of `Rules.ChangeMissionStatus`; valid |
| Repository.Database.DeleteFailedMissionsAbove | main.py:255-262 | the new state and count are those of `Rules.DeleteFailedMissionsAbove`; valid |
| Queries.ListAgents | main.py:123-129 | a permutation of the agents table ordered by rank, descending or ascending as asked |
| Queries.ListAliveAgentsWithRankAbove | main.py:132-137 | exactly the living agents with rank above n, each as often as in the table, ordered by rank descending |
| Queries.ListMissionsWithAgents | main.py:188-198 | every mission once, in id order, with its agent's codename exactly when it is assigned to an existing agent, and that codename belongs to the agent it names |
| Queries.HighestDifficulty | main.py:204 | None iff there are no missions; otherwise a difficulty some mission has and none exceeds |
| Queries.MissionsWithMaxDifficulty | main.py:201-212 | the maximum difficulty and exactly the listed rows whose mission has it, each once as in the listing, non-empty when there are missions |
| Analytics.StatsOf | main.py:270-274 | an agent's group carries its id and codename; success plus failed never exceed the total; the total is 0 iff no mission references the agent |
| Analytics.StatsTableCovers | main.py:271-274 | every agent has its group, and with ids in primary-key order the groups' ids strictly ascend |
| Analytics.MissionsCountPerAgent | main.py:267-278 | every agent's group, zero counts included, as a permutation ordered by total descending |
| Analytics.AgentsWithAtLeastKMissions | main.py:281-292 | exactly the groups with total >= k, each with the multiplicity it has among all groups, in ascending id order whenever agent ids ascend; for k <= 0 every agent |
| Analytics.RateAboveThrough | main.py:311-313 | the strict rate comparison is transitive through a row that does not beat the best, which keeps the best so far the best over every row seen |
| Analytics.AgentWithHighestSuccessRate | main.py:295-315 | None iff no agent has a mission; otherwise a group with missions that no other group with missions beats on success rate, and that strictly beats every earlier one: the first of the best |
| Analytics.SuccessPctBounds | main.py:326 | the success percentage lies between 0 and 100.00 and is exactly 100.00 when every mission succeeded |
| Analytics.ReportLines | main.py:321-329 | one line per agent with its counts and percentage, success plus failed within total and percentage at most 100.00 |
| Analytics.ReportTable | main.py:318-333 | a permutation of the report lines ordered by percentage descending, an agent without missions at 0 |
| Analytics.AgentsWithMoreFailedThanSuccess | main.py:336-349 | exactly the groups with more failed than successful missions, each with the multiplicity it has among all groups, in ascending id order whenever agent ids ascend, none of them without missions |
| Analytics.AgentsWithNoMissions | main.py:352-363 | an agent's group is listed iff no mission references the agent, each with the multiplicity it has among all groups, in ascending id order whenever agent ids ascend |
| Scenarios.CapacityScenario | main.py:74-78 | with three missions `in progress`, a fourth is refused by status change and by insertion with the tables unchanged, while a planned one is accepted |
| Scenarios.DeadAgentScenario | main.py:71-73 | a dead agent is refused a mission; a living one is not deleted; once dead it is deleted with all its missions |
| Scenarios.HighestRateScenario | main.py:308-314 | of an agent with two successes in two missions and one with one success in two, the first is returned with its counts |
| Scenarios.PurgeScenario | main.py:258 | of failed missions at difficulty 3 and 6 and a planned one at 8, threshold 5 removes only the one at 6 |

## Left out

- Printing, `input()`, the menus and the CLI loop (main.py:140-150, 242-253, 366 onwards) are not modelled; each operation returns what it would print about.
- `get_conn`, opening the file and `PRAGMA foreign_keys` are not modelled: the foreign key is taken as enforced, as `get_conn` arranges.
- `init_db`'s "first time" file test and `seed_data` are not modelled; the constructor gives the freshly created, unseeded schema.
- Rules.PromoteAgent: a failing promotion raises an uncaught `IntegrityError` in main.py; the model returns `InvalidRank` with the database unchanged, which is what the aborted statement leaves.
- Repository.Database.InsertAgent: SQLite's type affinity (a text rank such as `'5'` converted to an integer) is not modelled; rank and alive are integers.
- Identifiers.ParseRef: `str.isdigit()` also accepts non-ASCII digit characters, which `int()` may then reject; only ASCII digits are modelled.
- Analytics.AgentWithHighestSuccessRate: rates are compared exactly by cross-multiplication rather than as Python floats, and the result is the agent's group rather than a tuple holding the float rate.
- Analytics.ReportTable: SQLite's `ROUND(..., 2)` on a double is modelled as exact rounding of halves up, in hundredths of a percent.
- Queries.ListAgents, Analytics.MissionsCountPerAgent, Analytics.ReportTable: SQLite leaves the order of rows with equal sort keys unspecified, so only the ordering and the permutation are stated.
- Groups are taken in agent row order (ascending id), the order in which SQLite returns a `GROUP BY a.id` here.
- The purge at main.py:258 writes `status = "failed"` with double quotes; SQLite reads that as the string `failed` only through its fallback for double-quoted identifiers that name no column, and with that fallback disabled the statement raises an error. The model takes it as the string literal.
- Integer arguments and columns are unbounded here; in main.py an argument outside SQLite's 64-bit INTEGER range raises an uncaught `OverflowError` when it is bound, and `rank + delta` past that range becomes REAL. The model captures neither.
- The `skill` column is nullable in the schema; the model stores it as a string.
- Transactions, concurrent connections and the commit after a failed statement are not modelled: each operation is one atomic step.
