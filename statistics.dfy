/**
 * The statistics aggregator: per-round counts of infected, immune and dead
 * agents, and the static list of the statistics that are tracked.
 */
module Statistics {
  import opened Agents

  /** The conditions an agent is counted under. */
  datatype Flag = Infected | Immune | Dead | Susceptible

  predicate Has(a: Agent, f: Flag) {
    match f
    case Infected => a.infected
    case Immune => a.immune
    case Dead => a.dead
    case Susceptible => Agents.Susceptible(a)
  }

  /** The number of agents of `s` that have flag `f`. */
  function Count(s: seq<Agent>, f: Flag): (n: nat)
    ensures n <= |s|
  {
    if |s| == 0 then 0
    else Count(s[..|s| - 1], f) + (if Has(s[|s| - 1], f) then 1 else 0)
  }

  /** The positions of the agents of `s` that have flag `f`. */
  function IndicesWith(s: seq<Agent>, f: Flag): set<nat> {
    set i: nat | i < |s| && Has(s[i], f)
  }

  /** `Count` is the number of positions holding an agent with the flag. */
  lemma {:induction false} CountIsCardinality(s: seq<Agent>, f: Flag)
    ensures Count(s, f) == |IndicesWith(s, f)|
    decreases |s|
  {
    if |s| > 0 {
      var init := s[..|s| - 1];
      CountIsCardinality(init, f);
      var last := |s| - 1;
      IndicesOfPrefix(s, f);
      if Has(s[last], f) {
        assert IndicesWith(s, f) == IndicesWith(init, f) + {last};
      } else {
        assert IndicesWith(s, f) == IndicesWith(init, f);
      }
    }
  }

  /** Below the last position, `s` and its prefix have the same flagged positions. */
  lemma IndicesOfPrefix(s: seq<Agent>, f: Flag)
    requires |s| > 0
    ensures IndicesWith(s[..|s| - 1], f) == IndicesWith(s, f) - {|s| - 1}
  {
    var init := s[..|s| - 1];
    forall i: nat ensures i in IndicesWith(init, f) <==> i in IndicesWith(s, f) - {|s| - 1} {
      if i < |init| {
        assert init[i] == s[i];
      }
    }
  }

  /**
   * When infected, immune and dead exclude one another, every agent is
   * counted exactly once among infected, immune, dead and susceptible.
   */
  lemma {:induction false} Conservation(s: seq<Agent>)
    requires forall j :: 0 <= j < |s| ==> Exclusive(s[j])
    ensures Count(s, Infected) + Count(s, Immune) + Count(s, Dead) + Count(s, Susceptible) == |s|
    decreases |s|
  {
    if |s| > 0 {
      var init := s[..|s| - 1];
      assert forall j :: 0 <= j < |init| ==> init[j] == s[j];
      Conservation(init);
    }
  }

  /** One record of the time series: the round and the three counts. */
  datatype Stats = Stats(round: int, infected: nat, immune: nat, dead: nat)

  /** A statistic the charts and tables offer: its label and the key of its count. */
  datatype TrackedStat = TrackedStat(labelText: string, value: string)

  /** `trackedStats`. */
  const TRACKED_STATS: seq<TrackedStat> := [
    TrackedStat("Total Infected", "infected"),
    TrackedStat("Total Immune", "immune"),
    TrackedStat("Total Dead", "dead")
  ]

  /** The agent field a count key stands for. */
  function FlagOf(key: string): Option<Flag> {
    if key == "infected" then Some(Infected)
    else if key == "immune" then Some(Immune)
    else if key == "dead" then Some(Dead)
    else None
  }

  /** The value a statistics record holds under a key, if it has that key. */
  function Lookup(st: Stats, key: string): Option<int> {
    if key == "round" then Some(st.round)
    else if key == "infected" then Some(st.infected)
    else if key == "immune" then Some(st.immune)
    else if key == "dead" then Some(st.dead)
    else None
  }

  /**
   * `computeStatistics`: count the infected, immune and dead agents and
   * return the counts with the round. The population is only read.
   */
  method ComputeStatistics(population: array<Agent>, round: int) returns (st: Stats)
    ensures st.round == round
    ensures st.infected == Count(population[..], Infected)
    ensures st.immune == Count(population[..], Immune)
    ensures st.dead == Count(population[..], Dead)
    ensures st.infected <= population.Length && st.immune <= population.Length
      && st.dead <= population.Length
    ensures population.Length == 0 ==> st.infected == 0 && st.immune == 0 && st.dead == 0
  {
    var infected, immune, dead := 0, 0, 0;
    for i := 0 to population.Length
      invariant infected == Count(population[..i], Infected)
      invariant immune == Count(population[..i], Immune)
      invariant dead == Count(population[..i], Dead)
    {
      var p := population[i];
      assert population[..i + 1][..i] == population[..i];
      if p.infected {
        infected := infected + 1;
      }
      if p.immune {
        immune := immune + 1;
      }
      if p.dead {
        dead := dead + 1;
      }
    }
    assert population[..] == population[..population.Length];
    st := Stats(round, infected, immune, dead);
  }

  /**
   * Every tracked statistic names a key of the statistics record, and the
   * record holds under it the count of agents with that field set.
   */
  lemma TrackedStatsAreCounted(s: seq<Agent>, round: int)
    ensures var st := Stats(round, Count(s, Infected), Count(s, Immune), Count(s, Dead));
      forall t :: t in TRACKED_STATS ==>
        FlagOf(t.value).Some? && Lookup(st, t.value) == Some(Count(s, FlagOf(t.value).value))
  {
  }
}
