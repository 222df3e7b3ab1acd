/** The read-only reports of main.py (lines 267-363).  Each groups the agents
    table LEFT JOIN missions by agent id; `AgentStats` is one such group, in
    agent row order, with the counts every report draws on. */
module Analytics {
  import opened Schema
  import opened Sequences

  /** One `GROUP BY a.id` group: the agent and its mission counts. */
  datatype AgentStats = AgentStats(id: int, codename: string, total: nat, success: nat, failed: nat)

  /** The counts of agent `a`: COUNT(m.id) and the two SUM(CASE ...) columns. */
  function StatsOf(missions: seq<Mission>, a: Agent): (s: AgentStats)
    ensures s.id == a.id && s.codename == a.codename
    ensures s.success + s.failed <= s.total
    ensures s.total == 0 <==> forall m :: m in missions ==> m.assignedAgent != Some(a.id)
  {
    StatusCountsWithinTotal(missions, a.id);
    AssignedCountZero(missions, a.id);
    AgentStats(a.id, a.codename, AssignedCount(missions, a.id),
               StatusCount(missions, a.id, Success), StatusCount(missions, a.id, Failed))
  }

  /** One group per agent, in agent row order. */
  function StatsTable(t: Tables): (r: seq<AgentStats>)
    ensures |r| == |t.agents|
    ensures forall i :: 0 <= i < |r| ==> r[i] == StatsOf(t.missions, t.agents[i])
  {
    seq(|t.agents|, i requires 0 <= i < |t.agents| => StatsOf(t.missions, t.agents[i]))
  }

  /** Every agent has its group, and the groups follow the primary key. */
  lemma StatsTableCovers(t: Tables)
    ensures forall a :: a in t.agents ==> StatsOf(t.missions, a) in StatsTable(t)
    ensures AgentIdsAscending(t.agents) ==> StrictlyAscending(StatsTable(t), IdOf)
  {
    var r := StatsTable(t);
    forall a | a in t.agents
      ensures StatsOf(t.missions, a) in r
    {
      var i :| 0 <= i < |t.agents| && t.agents[i] == a;
      assert r[i] == StatsOf(t.missions, a);
    }
  }

  function TotalOf(s: AgentStats): int { s.total }
  function IdOf(s: AgentStats): int { s.id }

  /** `missions_count_per_agent` (main.py:267-278): every agent with its
      mission count, zero included, ordered by count descending. */
  function MissionsCountPerAgent(t: Tables): (r: seq<AgentStats>)
    ensures multiset(r) == multiset(StatsTable(t))
    ensures forall i, j :: 0 <= i < j < |r| ==> r[i].total >= r[j].total
  {
    var r := SortDesc(StatsTable(t), TotalOf);
    assert forall i, j :: 0 <= i < j < |r| ==> TotalOf(r[i]) >= TotalOf(r[j]);
    r
  }

  /** `agents_with_at_least_k_missions` (main.py:281-292): HAVING total >= k. */
  function AgentsWithAtLeastKMissions(t: Tables, k: int): (r: seq<AgentStats>)
    ensures forall s :: s in r <==> s in StatsTable(t) && s.total >= k
    ensures forall s :: multiset(r)[s] == if s.total >= k then multiset(StatsTable(t))[s] else 0
    ensures AgentIdsAscending(t.agents) ==> StrictlyAscending(r, IdOf)
    ensures k <= 0 ==> r == StatsTable(t)
  {
    var r := Filter(StatsTable(t), (s: AgentStats) => s.total >= k);
    StatsTableCovers(t);
    FilterAscending(StatsTable(t), (s: AgentStats) => s.total >= k, IdOf);
    if k <= 0 then
      FilterAll(StatsTable(t), (s: AgentStats) => s.total >= k);
      r
    else r
  }

  lemma {:induction false} FilterAll<T(!new)>(s: seq<T>, p: T -> bool)
    requires forall x :: x in s ==> p(x)
    ensures Filter(s, p) == s
  {
    if s != [] {
      FilterAll(s[1..], p);
      assert [s[0]] + s[1..] == s;
    }
  }

  // ---------------------------------------------------------------------------
  // agent_with_highest_success_rate (main.py:295-315)
  // ---------------------------------------------------------------------------

  /** success_a / total_a > success_b / total_b, cross-multiplied (totals positive). */
  predicate RateAbove(a: AgentStats, b: AgentStats)
  {
    a.success * b.total > b.success * a.total
  }

  /** If `c` is no better than `b` and `a` beats `b`, then `a` beats `c`. */
  lemma RateAboveThrough(a: AgentStats, b: AgentStats, c: AgentStats)
    requires a.total > 0 && b.total > 0 && c.total > 0
    requires RateAbove(a, b) && !RateAbove(c, b)
    ensures RateAbove(a, c)
  {
    // c.success * b.total <= b.success * c.total, times a.total
    MulLeq(c.success * b.total, b.success * c.total, a.total);
    // b.success * a.total < a.success * b.total, times c.total
    MulLess(b.success * a.total, a.success * b.total, c.total);
    assert c.success * a.total * b.total < a.success * c.total * b.total by {
      assert c.success * b.total * a.total == c.success * a.total * b.total;
      assert b.success * c.total * a.total == b.success * a.total * c.total;
      assert a.success * b.total * c.total == a.success * c.total * b.total;
    }
    DivideOut(c.success * a.total, a.success * c.total, b.total);
  }

  lemma MulLeq(x: int, y: int, z: nat)
    requires x <= y
    ensures x * z <= y * z
  {
  }

  lemma MulLess(x: int, y: int, z: int)
    requires x < y && z > 0
    ensures x * z < y * z
  {
  }

  lemma DivideOut(x: int, y: int, z: int)
    requires z > 0 && x * z < y * z
    ensures x < y
  {
    if x >= y {
      MulLeq(y, x, z);
    }
  }

  /** The loop of `agent_with_highest_success_rate` over the rows with at least
      one mission (HAVING total > 0): a row replaces the best so far only when
      its rate is strictly higher, so the first agent, in row order, with the
      highest rate is returned; None when no agent has a mission. */
  method AgentWithHighestSuccessRate(t: Tables) returns (best: Option<AgentStats>)
    ensures best.None? <==> forall a :: a in t.agents ==> StatsOf(t.missions, a).total == 0
    ensures best.Some? ==>
      var rows := StatsTable(t);
      exists k :: 0 <= k < |rows| && rows[k] == best.value && best.value.total > 0
        && (forall j :: 0 <= j < |rows| && rows[j].total > 0 ==> !RateAbove(rows[j], best.value))
        && (forall j :: 0 <= j < k && rows[j].total > 0 ==> RateAbove(best.value, rows[j]))
  {
    var rows := StatsTable(t);
    best := None;
    ghost var bestIndex := 0;
    var i := 0;
    while i < |rows|
      invariant 0 <= i <= |rows|
      invariant best.None? <==> forall j :: 0 <= j < i ==> rows[j].total == 0
      invariant best.Some? ==> 0 <= bestIndex < i && rows[bestIndex] == best.value && best.value.total > 0
      invariant best.Some? ==> forall j :: 0 <= j < i && rows[j].total > 0 ==> !RateAbove(rows[j], best.value)
      invariant best.Some? ==> forall j :: 0 <= j < bestIndex && rows[j].total > 0 ==> RateAbove(best.value, rows[j])
    {
      var r := rows[i];
      if r.total > 0 {
        // best_rate starts at -1, below every rate, so the first row always wins
        if best.None? || RateAbove(r, best.value) {
          if best.Some? {
            forall j | 0 <= j < i && rows[j].total > 0
              ensures RateAbove(r, rows[j])
            {
              RateAboveThrough(r, best.value, rows[j]);
            }
          }
          best := Some(r);
          bestIndex := i;
        }
      }
      i := i + 1;
    }
    NoGroupWithMissions(t);
  }

  /** Every group is empty exactly when every agent's group is. */
  lemma NoGroupWithMissions(t: Tables)
    ensures (forall j :: 0 <= j < |StatsTable(t)| ==> StatsTable(t)[j].total == 0)
        <==> forall a :: a in t.agents ==> StatsOf(t.missions, a).total == 0
  {
    var rows := StatsTable(t);
    if forall j :: 0 <= j < |rows| ==> rows[j].total == 0 {
      forall a | a in t.agents
        ensures StatsOf(t.missions, a).total == 0
      {
        var j :| 0 <= j < |t.agents| && t.agents[j] == a;
        assert rows[j] == StatsOf(t.missions, a);
      }
    }
  }

  // ---------------------------------------------------------------------------
  // build_report_table (main.py:318-333)
  // ---------------------------------------------------------------------------

  /** A report line; `successPct` is in hundredths of a percent. */
  datatype ReportRow = ReportRow(codename: string, total: nat, success: nat, failed: nat, successPct: nat)

  /** ROUND(100.0 * success / total, 2), in hundredths, rounding halves up;
      0 when the agent has no missions. */
  function SuccessPct(success: nat, total: nat): (p: nat)
    ensures total == 0 ==> p == 0
  {
    if total == 0 then 0 else (20000 * success + total) / (2 * total)
  }

  /** The percentage stays between 0 and 100.00, and is exactly 100.00 when every mission succeeded. */
  lemma SuccessPctBounds(success: nat, total: nat)
    requires success <= total
    ensures SuccessPct(success, total) <= 10000
    ensures 0 < total && success == total ==> SuccessPct(success, total) == 10000
  {
    if total > 0 {
      var n := 20000 * success + total;
      assert n < (2 * total) * 10001 by {
        MulLeq(success, total, 20000);
        assert total * 20000 == (2 * total) * 10000;
      }
      QuotientBelow(n, 2 * total, 10000);
      if success == total {
        assert n == (2 * total) * 10000 + total;
        QuotientExact(2 * total, 10000, total);
      }
    }
  }

  lemma QuotientBelow(n: nat, d: int, k: nat)
    requires d > 0 && n < d * (k + 1)
    ensures n / d <= k
  {
    var q := n / d;
    assert d * q + n % d == n;
    if q > k {
      MulLeq(k + 1, q, d);
    }
  }

  lemma QuotientExact(d: int, q: int, r: int)
    requires d > 0 && 0 <= r < d
    ensures (d * q + r) / d == q
  {
    var n := d * q + r;
    var q' := n / d;
    assert d * q' + n % d == n;
    if q' > q {
      MulLeq(q + 1, q', d);
    } else if q' < q {
      MulLeq(q' + 1, q, d);
    }
  }

  function ReportOf(s: AgentStats): ReportRow
  {
    ReportRow(s.codename, s.total, s.success, s.failed, SuccessPct(s.success, s.total))
  }

  function PctOf(r: ReportRow): int { r.successPct }

  /** The report's lines in agent row order, before ORDER BY. */
  function ReportLines(t: Tables): (r: seq<ReportRow>)
    ensures |r| == |t.agents|
    ensures forall i :: 0 <= i < |r| ==> r[i] == ReportOf(StatsOf(t.missions, t.agents[i]))
    ensures forall row :: row in r ==> row.success + row.failed <= row.total && row.successPct <= 10000
    ensures forall row :: row in r && row.total == 0 ==> row.successPct == 0
  {
    var lines := seq(|t.agents|, i requires 0 <= i < |t.agents| => ReportOf(StatsOf(t.missions, t.agents[i])));
    forall row | row in lines
      ensures row.success + row.failed <= row.total && row.successPct <= 10000
      ensures row.total == 0 ==> row.successPct == 0
    {
      var i :| 0 <= i < |lines| && lines[i] == row;
      SuccessPctBounds(row.success, row.total);
    }
    lines
  }

  /** `build_report_table`: one line per agent, ordered by success percentage descending. */
  function ReportTable(t: Tables): (r: seq<ReportRow>)
    ensures |r| == |t.agents|
    ensures multiset(r) == multiset(ReportLines(t))
    ensures forall i, j :: 0 <= i < j < |r| ==> r[i].successPct >= r[j].successPct
    ensures forall row :: row in r ==> row.success + row.failed <= row.total && row.successPct <= 10000
    ensures forall row :: row in r && row.total == 0 ==> row.successPct == 0
  {
    var lines := ReportLines(t);
    var r := SortDesc(lines, PctOf);
    assert forall i, j :: 0 <= i < j < |r| ==> PctOf(r[i]) >= PctOf(r[j]);
    PermutationMembers(r, lines);
    r
  }

  // ---------------------------------------------------------------------------
  // agents_with_more_failed_than_success, agents_with_no_missions (main.py:336-363)
  // ---------------------------------------------------------------------------

  /** HAVING failed > success.  An agent without missions never qualifies. */
  function AgentsWithMoreFailedThanSuccess(t: Tables): (r: seq<AgentStats>)
    ensures forall s :: s in r <==> s in StatsTable(t) && s.failed > s.success
    ensures forall s :: multiset(r)[s] == if s.failed > s.success then multiset(StatsTable(t))[s] else 0
    ensures AgentIdsAscending(t.agents) ==> StrictlyAscending(r, IdOf)
    ensures forall s :: s in r ==> s.total > 0
  {
    StatsTableCovers(t);
    FilterAscending(StatsTable(t), (s: AgentStats) => s.failed > s.success, IdOf);
    Filter(StatsTable(t), (s: AgentStats) => s.failed > s.success)
  }

  /** HAVING COUNT(m.id) = 0: exactly the agents no mission references. */
  function AgentsWithNoMissions(t: Tables): (r: seq<AgentStats>)
    ensures forall s :: s in r ==> s in StatsTable(t) && s.total == 0
    ensures forall s :: multiset(r)[s] == if s.total == 0 then multiset(StatsTable(t))[s] else 0
    ensures AgentIdsAscending(t.agents) ==> StrictlyAscending(r, IdOf)
    ensures forall a :: a in t.agents ==>
      (StatsOf(t.missions, a) in r <==> forall m :: m in t.missions ==> m.assignedAgent != Some(a.id))
  {
    var rows := StatsTable(t);
    StatsTableCovers(t);
    FilterAscending(rows, (s: AgentStats) => s.total == 0, IdOf);
    Filter(rows, (s: AgentStats) => s.total == 0)
  }
}
