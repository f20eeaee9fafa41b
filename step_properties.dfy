/**
 * What one step of the engine guarantees: who meets whom, when infection
 * passes, that death is final, and the invariants a step keeps.
 */
module StepProperties {
  import opened Agents
  import opened Shuffle
  import opened Step
  import opened Statistics

  // ---------------------------------------------------------------------
  // Pairing and transmission
  // ---------------------------------------------------------------------

  /** The position paired with position `q` of the shuffle: `2k` with `2k + 1`. */
  function Mate(q: nat): nat {
    if q % 2 == 0 then q + 1 else q - 1
  }

  /** The agent at shuffled position `q` after meeting the agent at position `Mate(q)`. */
  function PairedOutcome(s: seq<Agent>, order: seq<nat>, rolls: seq<Roll>, p: Params, q: nat): Agent
    requires Mate(q) < |order| && q / 2 < |rolls| && q < |order| && InRange(order, |s|)
  {
    Outcome(s[order[q]].(partner := Some(order[Mate(q)])), s[order[Mate(q)]], rolls[q / 2], p)
  }

  /** After the first `k` pairs, an agent at none of the first `2k` shuffled positions is unchanged. */
  lemma {:induction false} MeetPairsUnpaired(s: seq<Agent>, order: seq<nat>, rolls: seq<Roll>, p: Params, k: nat, j: nat)
    requires 2 * k <= |order| && k <= |rolls|
    requires Distinct(order) && InRange(order, |s|)
    requires j < |s| && j !in order[..2 * k]
    ensures MeetPairs(s, order, rolls, p, k)[j] == s[j]
    decreases k
  {
    if k > 0 {
      assert order[2 * k - 2] in order[..2 * k] && order[2 * k - 1] in order[..2 * k];
      assert j !in order[..2 * k - 2] by {
        assert order[..2 * k - 2] == order[..2 * k][..2 * k - 2];
      }
      MeetPairsUnpaired(s, order, rolls, p, k - 1, j);
    }
  }

  /**
   * After the first `k` pairs, the agent at a shuffled position `q < 2k`
   * ends as its meeting with the agent at `Mate(q)` left it, both taken as
   * they were before the contact phase.
   */
  lemma {:induction false} MeetPairsPaired(s: seq<Agent>, order: seq<nat>, rolls: seq<Roll>, p: Params, k: nat, q: nat)
    requires 2 * k <= |order| && k <= |rolls|
    requires Distinct(order) && InRange(order, |s|)
    requires q < 2 * k
    ensures Mate(q) < 2 * k
    ensures MeetPairs(s, order, rolls, p, k)[order[q]] == PairedOutcome(s, order, rolls, p, q)
    decreases k
  {
    if q >= 2 * k - 2 {
      MeetPairsLastPaired(s, order, rolls, p, k, q);
    } else {
      var a, b := order[2 * k - 2], order[2 * k - 1];
      assert order[q] != a && order[q] != b;
      MeetPairsPaired(s, order, rolls, p, k - 1, q);
    }
  }

  /** The agents of the `k`-th pair end as their meeting left them. */
  lemma MeetPairsLastPaired(s: seq<Agent>, order: seq<nat>, rolls: seq<Roll>, p: Params, k: nat, q: nat)
    requires 2 * k <= |order| && k <= |rolls|
    requires Distinct(order) && InRange(order, |s|)
    requires 2 * k - 2 <= q < 2 * k
    ensures Mate(q) < 2 * k
    ensures MeetPairs(s, order, rolls, p, k)[order[q]] == PairedOutcome(s, order, rolls, p, q)
  {
    var a, b := order[2 * k - 2], order[2 * k - 1];
    MeetLastPair(s, order, rolls, p, k);
    assert q / 2 == k - 1;
    if q == 2 * k - 2 {
      assert Mate(q) == 2 * k - 1;
    } else {
      assert Mate(q) == 2 * k - 2;
    }
  }

  /** The two agents of pair number `k - 1` meet as they were before the contact phase. */
  lemma MeetLastPair(s: seq<Agent>, order: seq<nat>, rolls: seq<Roll>, p: Params, k: nat)
    requires 0 < k && 2 * k <= |order| && k <= |rolls|
    requires Distinct(order) && InRange(order, |s|)
    ensures var prev := MeetPairs(s, order, rolls, p, k - 1);
      prev[order[2 * k - 2]] == s[order[2 * k - 2]] && prev[order[2 * k - 1]] == s[order[2 * k - 1]]
  {
    var a, b := order[2 * k - 2], order[2 * k - 1];
    assert a !in order[..2 * k - 2];
    assert b !in order[..2 * k - 2];
    MeetPairsUnpaired(s, order, rolls, p, k - 1, a);
    MeetPairsUnpaired(s, order, rolls, p, k - 1, b);
  }

  /**
   * Only the pairs at shuffled positions `(2k, 2k + 1)` interact: an agent
   * outside them is untouched, and an agent inside ends as its single
   * meeting left it.
   */
  lemma ContactAt(s: seq<Agent>, order: seq<nat>, rolls: seq<Roll>, p: Params, j: nat)
    requires |order| / 2 <= |rolls|
    requires Distinct(order) && InRange(order, |s|)
    requires j < |s|
    ensures j !in order[..2 * (|order| / 2)] ==> ContactPhase(s, order, rolls, p)[j] == s[j]
    ensures forall q :: 0 <= q < 2 * (|order| / 2) && order[q] == j ==>
      Mate(q) < |order| && ContactPhase(s, order, rolls, p)[j] == PairedOutcome(s, order, rolls, p, q)
  {
    if j !in order[..2 * (|order| / 2)] {
      MeetPairsUnpaired(s, order, rolls, p, |order| / 2, j);
    }
    forall q | 0 <= q < 2 * (|order| / 2) && order[q] == j
      ensures Mate(q) < |order| && ContactPhase(s, order, rolls, p)[j] == PairedOutcome(s, order, rolls, p, q)
    {
      MeetPairsPaired(s, order, rolls, p, |order| / 2, q);
    }
  }

  /** With an odd number of living agents, the last one in the shuffle meets no one. */
  lemma OddAgentOut(s: seq<Agent>, order: seq<nat>, rolls: seq<Roll>, p: Params)
    requires |order| / 2 <= |rolls|
    requires Distinct(order) && InRange(order, |s|)
    requires |order| % 2 == 1
    ensures ContactPhase(s, order, rolls, p)[order[|order| - 1]] == s[order[|order| - 1]]
  {
    var last := order[|order| - 1];
    assert last !in order[..2 * (|order| / 2)] by {
      forall q | 0 <= q < 2 * (|order| / 2) ensures order[q] != last { }
    }
    ContactAt(s, order, rolls, p, last);
  }

  /**
   * An agent becomes infected by contact only if its partner was infected,
   * it was not infected, not dead, had a zero immunity counter, and its
   * pair's roll fell below the infection chance; then only its infection
   * flags and partner changed.
   */
  lemma InfectionNeedsInfectedPartner(s: seq<Agent>, order: seq<nat>, rolls: seq<Roll>, p: Params, j: nat)
    requires |order| / 2 <= |rolls|
    requires Distinct(order) && InRange(order, |s|)
    requires j < |s|
    requires ContactPhase(s, order, rolls, p)[j].infected && !s[j].infected
    ensures exists q :: (0 <= q < 2 * (|order| / 2) && order[q] == j && Mate(q) < |order|
      && s[order[Mate(q)]].infected && !s[j].dead && s[j].immunity == 0
      && rolls[q / 2] < p.infectionChance
      && ContactPhase(s, order, rolls, p)[j]
         == s[j].(infected := true, newlyInfected := true, partner := Some(order[Mate(q)])))
  {
    ContactAt(s, order, rolls, p, j);
    var r := ContactPhase(s, order, rolls, p);
    assert j in order[..2 * (|order| / 2)];
    var q :| 0 <= q < 2 * (|order| / 2) && order[q] == j;
    assert r[j] == PairedOutcome(s, order, rolls, p, q);
  }

  /** With an infection chance of 0 (or less), contact infects no one. */
  lemma NoTransmissionAtZeroChance(s: seq<Agent>, order: seq<nat>, rolls: seq<Roll>, p: Params)
    requires |order| / 2 <= |rolls|
    requires Distinct(order) && InRange(order, |s|)
    requires p.infectionChance <= 0.0
    ensures forall j :: 0 <= j < |s| ==>
      ContactPhase(s, order, rolls, p)[j].infected == s[j].infected
      && ContactPhase(s, order, rolls, p)[j].newlyInfected == s[j].newlyInfected
  {
    MeetPairsEffect(s, order, rolls, p, |order| / 2);
    forall j | 0 <= j < |s|
      ensures ContactPhase(s, order, rolls, p)[j].infected == s[j].infected
    {
      if ContactPhase(s, order, rolls, p)[j].infected && !s[j].infected {
        InfectionNeedsInfectedPartner(s, order, rolls, p, j);
      }
    }
  }

  /**
   * With an infection chance of 100, an uninfected, living agent with a zero
   * immunity counter that is paired with an infected agent becomes infected.
   */
  lemma CertainTransmission(s: seq<Agent>, order: seq<nat>, rolls: seq<Roll>, p: Params, q: nat)
    requires |order| / 2 <= |rolls|
    requires Distinct(order) && InRange(order, |s|)
    requires p.infectionChance >= 100.0
    requires q < 2 * (|order| / 2)
    requires s[order[Mate(q)]].infected
    requires !s[order[q]].infected && !s[order[q]].dead && s[order[q]].immunity == 0
    ensures ContactPhase(s, order, rolls, p)[order[q]].infected
    ensures ContactPhase(s, order, rolls, p)[order[q]].newlyInfected
  {
    ContactAt(s, order, rolls, p, order[q]);
  }

  // ---------------------------------------------------------------------
  // A whole step
  // ---------------------------------------------------------------------

  /** A step keeps the population's length, order, ids and coordinates. */
  lemma UpdateKeepsIdentity(s: seq<Agent>, p: Params, d: Draws)
    requires ValidDraws(s, p, d)
    ensures |Update(s, p, d)| == |s|
    ensures forall j :: 0 <= j < |s| ==> SameIdentity(Update(s, p, d)[j], s[j])
  {
  }

  /**
   * Death is final: an agent dead before a step is dead after it, with
   * no infection, no immunity and zero counters, and it was not among the
   * agents shuffled for pairing.
   */
  lemma DeadIsAbsorbing(s: seq<Agent>, p: Params, d: Draws, j: nat)
    requires ValidDraws(s, p, d)
    requires j < |s| && s[j].dead
    ensures j !in d.shuffle
    ensures var r := Update(s, p, d)[j];
      r.dead && !r.infected && !r.immune && !r.newlyInfected && r.sickDays == 0 && r.immunity == 0
      && r.partner == s[j].partner
  {
    ValidShuffle(s, p, d);
    var s1 := AgentPhase(s, p, d.deathRolls);
    assert s1[j].dead;
    assert j !in d.shuffle[..2 * (|d.shuffle| / 2)];
    ContactAt(s1, d.shuffle, d.infectionRolls, p, j);
  }

  /**
   * The invariants a step establishes for every agent: infected and immune
   * exclude each other and death; a newly infected agent is infected and
   * alive; a dead agent is pinned at zero; an immune agent has a positive
   * immunity counter.
   */
  lemma StepInvariants(s: seq<Agent>, p: Params, d: Draws)
    requires ValidDraws(s, p, d)
    ensures forall j :: 0 <= j < |s| ==>
      var r := Update(s, p, d)[j];
      Exclusive(r) && NewlyConsistent(r) && DeadPinned(r) && (r.immune ==> r.immunity >= 1)
  {
  }

  /**
   * After a step, every agent is counted exactly once among infected,
   * immune, dead and susceptible.
   */
  lemma StepConservation(s: seq<Agent>, p: Params, d: Draws)
    requires ValidDraws(s, p, d)
    ensures var r := Update(s, p, d);
      Count(r, Infected) + Count(r, Immune) + Count(r, Dead) + Count(r, Susceptible) == |s|
  {
    StepInvariants(s, p, d);
    Conservation(Update(s, p, d));
  }

  /** A step keeps `immune <==> immunity >= 1` for everybody once it holds. */
  lemma StepKeepsImmunityConsistent(s: seq<Agent>, p: Params, d: Draws)
    requires ValidDraws(s, p, d)
    requires forall j :: 0 <= j < |s| ==> ImmunityConsistent(s[j])
    ensures forall j :: 0 <= j < |s| ==> ImmunityConsistent(Update(s, p, d)[j])
  {
  }

  /** A step keeps `!infected ==> sickDays == 0` for everybody once it holds. */
  lemma StepKeepsSicknessConsistent(s: seq<Agent>, p: Params, d: Draws)
    requires ValidDraws(s, p, d)
    requires forall j :: 0 <= j < |s| ==> SicknessConsistent(s[j])
    ensures forall j :: 0 <= j < |s| ==> SicknessConsistent(Update(s, p, d)[j])
  {
  }

  /** With a death percentage of 0 (or less), nobody dies. */
  lemma NoDeathsAtZeroPercentage(s: seq<Agent>, p: Params, d: Draws)
    requires ValidDraws(s, p, d)
    requires p.deathPercentage <= 0.0
    ensures forall j :: 0 <= j < |s| ==> Update(s, p, d)[j].dead == s[j].dead
  {
  }

  /** With an infection chance of 0 (or less), a step infects nobody by contact. */
  lemma NoInfectionAtZeroChance(s: seq<Agent>, p: Params, d: Draws)
    requires ValidDraws(s, p, d)
    requires p.infectionChance <= 0.0
    ensures forall j :: 0 <= j < |s| ==>
      !Update(s, p, d)[j].newlyInfected && (Update(s, p, d)[j].infected ==> s[j].infected)
  {
    ValidShuffle(s, p, d);
    NoTransmissionAtZeroChance(AgentPhase(s, p, d.deathRolls), d.shuffle, d.infectionRolls, p);
    forall j | 0 <= j < |s| ensures Update(s, p, d)[j].infected ==> s[j].infected {
      assert StepAgent(s[j], p, d.deathRolls[j]).infected ==> s[j].infected;
    }
  }

  // ---------------------------------------------------------------------
  // One agent's timeline
  // ---------------------------------------------------------------------

  /**
   * A living immune agent ends its own transition uninfected, alive and
   * with no sick days; its immunity counter grows by one, or, once that
   * exceeds the parameter, immunity expires.
   */
  lemma ImmuneTimeline(a: Agent, p: Params, roll: Roll)
    requires !a.dead && a.immune && p.sickDays >= 0
    ensures var r := StepAgent(a, p, roll);
      !r.infected && !r.dead && r.sickDays == 0
      && (a.immunity + 1 > p.immunity ==> !r.immune && r.immunity == 0)
      && (a.immunity + 1 <= p.immunity ==> r.immune && r.immunity == a.immunity + 1)
  {
  }

  /**
   * With a negative sick-days parameter the recovery check fires for every
   * living agent: whatever its state, it ends its transition uninfected,
   * alive and immune with counter 1.
   */
  lemma NegativeSickDaysForcesImmunity(a: Agent, p: Params, roll: Roll)
    requires !a.dead && p.sickDays < 0
    ensures var r := StepAgent(a, p, roll);
      !r.infected && !r.dead && r.immune && r.immunity == 1 && r.sickDays == 0
  {
  }

  /**
   * A living infected agent that is not immune counts a sick day; once the
   * count exceeds the parameter it recovers into immunity with counter 1,
   * otherwise its death roll decides whether it dies.
   */
  lemma SickTimeline(a: Agent, p: Params, roll: Roll)
    requires !a.dead && a.infected && !a.immune
    ensures var r := StepAgent(a, p, roll);
      if a.sickDays + 1 > p.sickDays then
        r == a.(newlyInfected := false, infected := false, sickDays := 0, immunity := 1, immune := true)
      else if roll < p.deathPercentage then
        r == a.(newlyInfected := false, infected := false, sickDays := 0, immunity := 0, dead := true)
      else
        r == a.(newlyInfected := false, sickDays := a.sickDays + 1)
  {
  }

  /**
   * Contact leaves an infected agent, a dead one and one with a positive
   * immunity counter as it was, apart from its partner.
   */
  lemma ProtectedFromContact(s: seq<Agent>, order: seq<nat>, rolls: seq<Roll>, p: Params, j: nat)
    requires |order| / 2 <= |rolls|
    requires Distinct(order) && InRange(order, |s|)
    requires j < |s| && (s[j].infected || s[j].dead || s[j].immunity >= 1)
    ensures var r := ContactPhase(s, order, rolls, p)[j];
      r == s[j].(partner := r.partner)
  {
    MeetPairsEffect(s, order, rolls, p, |order| / 2);
  }

  /** An agent after `n` first-loop transitions, every death roll 0 and no contact phase. */
  function Repeat(a: Agent, p: Params, n: nat): Agent {
    if n == 0 then a else StepAgent(Repeat(a, p, n - 1), p, 0.0)
  }

  /**
   * Patient zero under a 0% death rate, 5 days of immunity and 7 sick
   * days, counting first-loop transitions only (no contact phase): infected
   * with 7 sick days after 6 transitions, immune with counter 1 after 7,
   * immune with counter 5 after 11, and susceptible again after 12.
   */
  lemma PatientZeroTimeline()
    ensures Repeat(EXAMPLE_SICK, EXAMPLE_PARAMS, 6) == EXAMPLE_SICK.(sickDays := 7)
    ensures var r := Repeat(EXAMPLE_SICK, EXAMPLE_PARAMS, 7);
      !r.infected && r.immune && r.immunity == 1 && r.sickDays == 0 && !r.dead
    ensures var r := Repeat(EXAMPLE_SICK, EXAMPLE_PARAMS, 11);
      !r.infected && r.immune && r.immunity == 5 && !r.dead
    ensures var r := Repeat(EXAMPLE_SICK, EXAMPLE_PARAMS, 12);
      Agents.Susceptible(r) && r.immunity == 0 && r.sickDays == 0
  {
    var a := EXAMPLE_SICK;
    var p := EXAMPLE_PARAMS;
    assert Repeat(a, p, 1) == a.(sickDays := 2);
    assert Repeat(a, p, 2) == a.(sickDays := 3);
    assert Repeat(a, p, 3) == a.(sickDays := 4);
    assert Repeat(a, p, 4) == a.(sickDays := 5);
    assert Repeat(a, p, 5) == a.(sickDays := 6);
    assert Repeat(a, p, 6) == a.(sickDays := 7);
    var immune := a.(infected := false, sickDays := 0, immune := true, immunity := 1);
    assert Repeat(a, p, 7) == immune;
    assert Repeat(a, p, 8) == immune.(immunity := 2);
    assert Repeat(a, p, 9) == immune.(immunity := 3);
    assert Repeat(a, p, 10) == immune.(immunity := 4);
    assert Repeat(a, p, 11) == immune.(immunity := 5);
    assert Repeat(a, p, 12) == immune.(immune := false, immunity := 0);
  }

  // An example: patient zero meets an agent whose immunity runs out.
  const EXAMPLE_PARAMS := Params(100.0, 0.0, 5, 7)
  const EXAMPLE_SICK := Agent(0, 0.0, 0.0, true, false, false, 1, false, 0, None)
  const EXAMPLE_EXPIRING := Agent(1, 50.0, 0.0, false, false, false, 0, true, 5, None)
  const EXAMPLE_DRAWS := Draws([0.0, 0.0], [0, 1], [0.0])

  /** The first loop of the example step: a sick day counted, immunity expired. */
  lemma ExampleFirstLoop()
    ensures AgentPhase([EXAMPLE_SICK, EXAMPLE_EXPIRING], EXAMPLE_PARAMS, EXAMPLE_DRAWS.deathRolls)
         == [EXAMPLE_SICK.(sickDays := 2), EXAMPLE_EXPIRING.(immune := false, immunity := 0)]
  {
  }

  /** The example's draws are valid: both agents are alive after the first loop. */
  lemma ExampleDrawsValid()
    ensures ValidDraws([EXAMPLE_SICK, EXAMPLE_EXPIRING], EXAMPLE_PARAMS, EXAMPLE_DRAWS)
  {
    ExampleFirstLoop();
    var s1 := [EXAMPLE_SICK.(sickDays := 2), EXAMPLE_EXPIRING.(immune := false, immunity := 0)];
    assert Living(s1[..1]) == [0] by { assert Living(s1[..1][..0]) == []; }
    assert s1[..2][..1] == s1[..1];
    assert Living(s1) == [0, 1];
  }

  /**
   * An agent whose immunity expires in the first loop of a step has a zero
   * immunity counter in the second, and can be infected in that same step.
   */
  lemma ExpiredImmunityReinfectedSameStep()
    ensures ValidDraws([EXAMPLE_SICK, EXAMPLE_EXPIRING], EXAMPLE_PARAMS, EXAMPLE_DRAWS)
    ensures var r := Update([EXAMPLE_SICK, EXAMPLE_EXPIRING], EXAMPLE_PARAMS, EXAMPLE_DRAWS)[1];
      r.infected && r.newlyInfected && !r.immune && r.immunity == 0
  {
    ExampleDrawsValid();
    ExampleFirstLoop();
    var s1 := [EXAMPLE_SICK.(sickDays := 2), EXAMPLE_EXPIRING.(immune := false, immunity := 0)];
    assert Mate(1) == 0;
    CertainTransmission(s1, EXAMPLE_DRAWS.shuffle, EXAMPLE_DRAWS.infectionRolls, EXAMPLE_PARAMS, 1);
  }
}
