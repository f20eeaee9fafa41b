/**
 * The step engine of the disease model (`updatePopulation` and its helper
 * `maybeInfectPerson`): a per-agent state machine followed by random
 * pairwise contact between the living agents.
 *
 * The random draws are inputs: one death roll per agent, the shuffle of the
 * living agents, and one infection roll per pair.
 */
module Step {
  import opened Agents
  import opened Shuffle

  // ---------------------------------------------------------------------
  // The per-agent phase
  // ---------------------------------------------------------------------

  /** An infected agent counts one more day of sickness. */
  function SickDay(a: Agent): (r: Agent)
    ensures r == a.(sickDays := r.sickDays)
    ensures r.sickDays == if a.infected then a.sickDays + 1 else a.sickDays
  {
    if a.infected then a.(sickDays := a.sickDays + 1) else a
  }

  /**
   * An immune agent is cleared of infection and counts one more day of
   * immunity; once the count exceeds the parameter, immunity expires.
   */
  function AgeImmunity(a: Agent, p: Params): (r: Agent)
    ensures !a.immune ==> r == a
    ensures a.immune ==>
      r == a.(infected := false, sickDays := 0, immunity := r.immunity, immune := r.immune)
      && (r.immune <==> a.immunity + 1 <= p.immunity)
      && r.immunity == (if r.immune then a.immunity + 1 else 0)
  {
    if !a.immune then a
    else
      var b := a.(infected := false, sickDays := 0, immunity := a.immunity + 1, immune := true);
      if b.immunity > p.immunity then b.(immune := false, immunity := 0) else b
  }

  /** Sickness that has lasted longer than the parameter turns into immunity. */
  function Recover(a: Agent, p: Params): (r: Agent)
    ensures a.sickDays <= p.sickDays ==> r == a
    ensures a.sickDays > p.sickDays ==>
      r == a.(infected := false, sickDays := 0, immunity := 1, immune := true)
  {
    if a.sickDays > p.sickDays then a.(infected := false, sickDays := 0, immunity := 1, immune := true)
    else a
  }

  /** The state of a living agent once the recovery check is done. */
  function BeforeDeathRoll(a: Agent, p: Params): (r: Agent)
    ensures SameIdentity(r, a) && r.dead == a.dead && r.partner == a.partner
      && r.newlyInfected == a.newlyInfected
    ensures !(r.infected && r.immune)
    ensures r.immune ==> r.immunity >= 1
  {
    Recover(AgeImmunity(SickDay(a), p), p)
  }

  /** A still-infected agent dies when its roll falls below the death percentage. */
  function DeathRoll(a: Agent, p: Params, roll: Roll): (r: Agent)
    ensures r.dead <==> a.dead || (a.infected && roll < p.deathPercentage)
    ensures a.infected && roll < p.deathPercentage ==> r.dead && !r.infected && r.sickDays == 0 && r.immunity == 0
    ensures !(a.infected && roll < p.deathPercentage) ==> r == a
    ensures r == a.(sickDays := r.sickDays, immunity := r.immunity, infected := r.infected, dead := r.dead)
  {
    if a.infected && roll < p.deathPercentage then
      a.(sickDays := 0, immunity := 0, infected := false, dead := true)
    else a
  }

  /**
   * One agent's transition in the first loop of a step: the newly-infected
   * flag is cleared; a dead agent has its state reset and nothing else; a
   * living one goes through the sick-day count, the immunity countdown, the
   * recovery check and the death roll, in that order.
   */
  function StepAgent(a: Agent, p: Params, roll: Roll): (r: Agent)
    ensures SameIdentity(r, a) && r.partner == a.partner
    ensures !r.newlyInfected
    ensures a.dead ==> r.dead
    ensures DeadPinned(r) && Exclusive(r)
    ensures r.immune ==> r.immunity >= 1
    ensures ImmunityConsistent(a) ==> ImmunityConsistent(r)
    ensures SicknessConsistent(a) ==> SicknessConsistent(r)
    ensures r.dead && !a.dead ==>
      BeforeDeathRoll(a.(newlyInfected := false), p).infected && roll < p.deathPercentage
  {
    var a0 := a.(newlyInfected := false);
    if a0.dead then a0.(sickDays := 0, immunity := 0, immune := false, infected := false)
    else DeathRoll(BeforeDeathRoll(a0, p), p, roll)
  }

  /** The population after the first loop of a step. */
  function AgentPhase(s: seq<Agent>, p: Params, deathRolls: seq<Roll>): (r: seq<Agent>)
    requires |deathRolls| == |s|
    ensures |r| == |s|
    ensures forall i :: 0 <= i < |s| ==>
      SameIdentity(r[i], s[i]) && !r[i].newlyInfected && (s[i].dead ==> r[i].dead)
  {
    seq(|s|, i requires 0 <= i < |s| => StepAgent(s[i], p, deathRolls[i]))
  }

  /** The indices of the living agents, in population order (the filter before the shuffle). */
  function Living(s: seq<Agent>): (r: seq<nat>)
    ensures |r| <= |s|
    ensures forall k :: 0 <= k < |r| ==> r[k] < |s| && !s[r[k]].dead
    ensures forall i :: 0 <= i < |s| && !s[i].dead ==> i in r
    ensures forall k, l :: 0 <= k < l < |r| ==> r[k] < r[l]
  {
    if |s| == 0 then []
    else
      var init := Living(s[..|s| - 1]);
      if s[|s| - 1].dead then init else init + [|s| - 1]
  }

  // ---------------------------------------------------------------------
  // The contact phase
  // ---------------------------------------------------------------------

  /**
   * `maybeInfectPerson`: when the roll falls below the infection chance, an
   * agent that is not infected, not dead and has a zero immunity counter
   * becomes infected and newly infected; nothing else about it changes.
   */
  function MaybeInfect(person: Agent, roll: Roll, p: Params): (r: Agent)
    ensures r.infected <==>
      person.infected || (roll < p.infectionChance && !person.dead && person.immunity == 0)
    ensures r == person || r == person.(infected := true, newlyInfected := true)
    ensures person.infected ==> r == person
    ensures r.newlyInfected <==> person.newlyInfected || (r.infected && !person.infected)
  {
    if roll < p.infectionChance && !person.infected && !person.dead && person.immunity == 0 then
      person.(infected := true, newlyInfected := true)
    else person
  }

  /** Only the infection flags and the partner index differ between `a` and `b`. */
  predicate OnlyContactFields(a: Agent, b: Agent) {
    b == a.(infected := b.infected, newlyInfected := b.newlyInfected, partner := b.partner)
  }

  /**
   * What a meeting does to `self`, whose partner is `other`: an uninfected
   * agent with an infected partner undergoes `maybeInfectPerson`.
   */
  function Outcome(self: Agent, other: Agent, roll: Roll, p: Params): (r: Agent)
    ensures OnlyContactFields(self, r) && r.partner == self.partner
    ensures r.infected <==>
      self.infected || (other.infected && roll < p.infectionChance && !self.dead && self.immunity == 0)
    ensures r.newlyInfected <==> self.newlyInfected || (r.infected && !self.infected)
  {
    if other.infected && !self.infected then MaybeInfect(self, roll, p) else self
  }

  /**
   * The agents at indices `a` and `b` meet: each records the other as its
   * partner, then infection may pass from the infected one to the other.
   */
  function Meet(s: seq<Agent>, a: nat, b: nat, roll: Roll, p: Params): (r: seq<Agent>)
    requires a < |s| && b < |s| && a != b
    ensures |r| == |s|
    ensures forall j :: 0 <= j < |s| && j != a && j != b ==> r[j] == s[j]
    ensures r[a] == Outcome(s[a].(partner := Some(b)), s[b], roll, p)
    ensures r[b] == Outcome(s[b].(partner := Some(a)), s[a], roll, p)
  {
    var personA := s[a].(partner := Some(b));
    var personB := s[b].(partner := Some(a));
    var personB' := if personA.infected && !personB.infected then MaybeInfect(personB, roll, p) else personB;
    var personA' := if personB'.infected && !personA.infected then MaybeInfect(personA, roll, p) else personA;
    s[a := personA'][b := personB']
  }

  /**
   * How contact can change one agent: only the infection flags and the
   * partner move; infection and the newly-infected flag are never cleared;
   * a new infection reaches only a living agent with a zero immunity
   * counter, and comes with the newly-infected flag.
   */
  predicate ContactEffect(a: Agent, b: Agent) {
    OnlyContactFields(a, b)
    && (a.infected ==> b.infected)
    && (a.newlyInfected ==> b.newlyInfected)
    && (b.infected && !a.infected ==> b.newlyInfected && !a.dead && a.immunity == 0)
    && (b.newlyInfected && !a.newlyInfected ==> b.infected && !a.infected)
  }

  /** Two rounds of contact amount to one. */
  lemma ContactEffectTransitive(a: Agent, b: Agent, c: Agent)
    requires ContactEffect(a, b) && ContactEffect(b, c)
    ensures ContactEffect(a, c)
  {
  }

  /** Every element of `order` indexes into a population of size `n`. */
  predicate InRange(order: seq<nat>, n: nat) {
    forall k :: 0 <= k < |order| ==> order[k] < n
  }

  /** The population after the first `k` pairs of the shuffled order have met. */
  function MeetPairs(s: seq<Agent>, order: seq<nat>, rolls: seq<Roll>, p: Params, k: nat): (r: seq<Agent>)
    requires 2 * k <= |order| && k <= |rolls|
    requires Distinct(order) && InRange(order, |s|)
    ensures |r| == |s|
    decreases k
  {
    if k == 0 then s
    else Meet(MeetPairs(s, order, rolls, p, k - 1), order[2 * k - 2], order[2 * k - 1], rolls[k - 1], p)
  }

  /**
   * Contact changes only infection flags and partners, never clears an
   * infection, and infects only agents that are alive with a zero immunity
   * counter.
   */
  lemma {:induction false} MeetPairsEffect(s: seq<Agent>, order: seq<nat>, rolls: seq<Roll>, p: Params, k: nat)
    requires 2 * k <= |order| && k <= |rolls|
    requires Distinct(order) && InRange(order, |s|)
    ensures forall j :: 0 <= j < |s| ==> ContactEffect(s[j], MeetPairs(s, order, rolls, p, k)[j])
    decreases k
  {
    if k > 0 {
      var prev := MeetPairs(s, order, rolls, p, k - 1);
      var r := MeetPairs(s, order, rolls, p, k);
      MeetPairsEffect(s, order, rolls, p, k - 1);
      forall j | 0 <= j < |s| ensures ContactEffect(s[j], r[j]) {
        assert ContactEffect(prev[j], r[j]);
        ContactEffectTransitive(s[j], prev[j], r[j]);
      }
    }
  }

  /** Pair number `k` (from 0) consists of the shuffled positions `2k` and `2k + 1`. */
  lemma MeetNextPair(s: seq<Agent>, order: seq<nat>, rolls: seq<Roll>, p: Params, k: nat)
    requires 2 * k + 2 <= |order| && |order| / 2 <= |rolls|
    requires Distinct(order) && InRange(order, |s|)
    ensures k + 1 <= |rolls|
    ensures MeetPairs(s, order, rolls, p, k + 1)
         == Meet(MeetPairs(s, order, rolls, p, k), order[2 * k], order[2 * k + 1], rolls[k], p)
  {
  }

  /** The second loop of a step: consecutive pairs of the shuffled order meet; an odd last agent does not. */
  function ContactPhase(s: seq<Agent>, order: seq<nat>, rolls: seq<Roll>, p: Params): (r: seq<Agent>)
    requires |order| / 2 <= |rolls|
    requires Distinct(order) && InRange(order, |s|)
    ensures |r| == |s|
    ensures forall j :: 0 <= j < |s| ==> ContactEffect(s[j], r[j])
  {
    MeetPairsEffect(s, order, rolls, p, |order| / 2);
    MeetPairs(s, order, rolls, p, |order| / 2)
  }

  // ---------------------------------------------------------------------
  // A whole step
  // ---------------------------------------------------------------------

  /** The random draws of one step. */
  datatype Draws = Draws(deathRolls: seq<Roll>, shuffle: seq<nat>, infectionRolls: seq<Roll>)

  /**
   * One death roll per agent, a shuffle of the agents alive after the first
   * loop, and an infection roll for each pair of that shuffle.
   */
  predicate ValidDraws(s: seq<Agent>, p: Params, d: Draws) {
    |d.deathRolls| == |s|
    && IsShuffleOf(d.shuffle, Living(AgentPhase(s, p, d.deathRolls)))
    && |d.shuffle| / 2 <= |d.infectionRolls|
  }

  /**
   * Every population admits valid draws for any death rolls: the living
   * agents in population order, with a roll for each agent.
   */
  lemma ValidDrawsExist(s: seq<Agent>, p: Params, deathRolls: seq<Roll>)
    requires |deathRolls| == |s|
    ensures ValidDraws(s, p, Draws(deathRolls, Living(AgentPhase(s, p, deathRolls)), deathRolls))
  {
  }

  /** The shuffle of valid draws indexes distinct agents alive after the first loop. */
  lemma ValidShuffle(s: seq<Agent>, p: Params, d: Draws)
    requires ValidDraws(s, p, d)
    ensures Distinct(d.shuffle) && InRange(d.shuffle, |s|)
    ensures forall k :: 0 <= k < |d.shuffle| ==> !AgentPhase(s, p, d.deathRolls)[d.shuffle[k]].dead
    ensures forall i :: 0 <= i < |s| && !AgentPhase(s, p, d.deathRolls)[i].dead ==> i in d.shuffle
  {
    var living := Living(AgentPhase(s, p, d.deathRolls));
    ShuffleFacts(d.shuffle, living);
    forall k | 0 <= k < |d.shuffle|
      ensures d.shuffle[k] < |s| && !AgentPhase(s, p, d.deathRolls)[d.shuffle[k]].dead
    {
      assert d.shuffle[k] in living;
    }
  }

  /** The population after one call of `updatePopulation`, in its original order. */
  function Update(s: seq<Agent>, p: Params, d: Draws): (r: seq<Agent>)
    requires ValidDraws(s, p, d)
    ensures |r| == |s|
    ensures forall j :: 0 <= j < |s| ==> ContactEffect(AgentPhase(s, p, d.deathRolls)[j], r[j])
  {
    ValidShuffle(s, p, d);
    ContactPhase(AgentPhase(s, p, d.deathRolls), d.shuffle, d.infectionRolls, p)
  }

  // ---------------------------------------------------------------------
  // The in-place code
  // ---------------------------------------------------------------------

  /** `maybeInfectPerson` on the agent at index `j`, in place. */
  method MaybeInfectPerson(population: array<Agent>, j: nat, roll: Roll, p: Params)
    requires j < population.Length
    modifies population
    ensures population[..] == old(population[..])[j := MaybeInfect(old(population[j]), roll, p)]
  {
    if roll < p.infectionChance {
      if !population[j].infected && !population[j].dead && population[j].immunity == 0 {
        population[j] := population[j].(infected := true, newlyInfected := true);
      }
    }
  }

  /** The first loop of `updatePopulation`: each agent's own transition, in place. */
  method StepAgents(population: array<Agent>, params: Params, deathRolls: seq<Roll>)
    requires |deathRolls| == population.Length
    modifies population
    ensures population[..] == AgentPhase(old(population[..]), params, deathRolls)
  {
    ghost var s0 := population[..];
    for i := 0 to population.Length
      invariant forall k :: 0 <= k < i ==> population[k] == StepAgent(s0[k], params, deathRolls[k])
      invariant forall k :: i <= k < population.Length ==> population[k] == s0[k]
    {
      var p := population[i];
      p := p.(newlyInfected := false);
      if p.dead {
        p := p.(sickDays := 0, immunity := 0, immune := false, infected := false);
      } else {
        if p.infected {
          p := p.(sickDays := p.sickDays + 1);
        }
        if p.immune {
          p := p.(infected := false, sickDays := 0, immunity := p.immunity + 1, immune := true);
          if p.immunity > params.immunity {
            p := p.(immune := false, immunity := 0);
          }
        }
        if p.sickDays > params.sickDays {
          p := p.(infected := false, sickDays := 0, immunity := 1, immune := true);
        }
        if p.infected && deathRolls[i] < params.deathPercentage {
          p := p.(sickDays := 0, immunity := 0, infected := false, dead := true);
        }
      }
      population[i] := p;
    }
  }

  /** The agents at indices `a` and `b` of the array meet, in place. */
  method MeetInPlace(population: array<Agent>, a: nat, b: nat, roll: Roll, params: Params)
    requires a < population.Length && b < population.Length && a != b
    modifies population
    ensures population[..] == Meet(old(population[..]), a, b, roll, params)
  {
    population[a] := population[a].(partner := Some(b));
    population[b] := population[b].(partner := Some(a));
    if population[a].infected && !population[b].infected {
      MaybeInfectPerson(population, b, roll, params);
    }
    if population[b].infected && !population[a].infected {
      MaybeInfectPerson(population, a, roll, params);
    }
  }

  /**
   * The second loop of `updatePopulation`: walk the shuffled living agents
   * two at a time; each pair meets.
   */
  method MeetShuffledPairs(population: array<Agent>, notDeadShuffled: seq<nat>, rolls: seq<Roll>, params: Params)
    requires |notDeadShuffled| / 2 <= |rolls|
    requires Distinct(notDeadShuffled) && InRange(notDeadShuffled, population.Length)
    modifies population
    ensures population[..] == ContactPhase(old(population[..]), notDeadShuffled, rolls, params)
  {
    ghost var s1 := population[..];
    var i := 0;
    ghost var pairs := 0;
    while i < |notDeadShuffled| - 1
      invariant i == 2 * pairs <= |notDeadShuffled| && pairs <= |rolls|
      invariant population[..] == MeetPairs(s1, notDeadShuffled, rolls, params, pairs)
    {
      assert i / 2 == pairs;
      MeetNextPair(s1, notDeadShuffled, rolls, params, pairs);
      MeetInPlace(population, notDeadShuffled[i], notDeadShuffled[i + 1], rolls[i / 2], params);
      i, pairs := i + 2, pairs + 1;
    }
    assert pairs == |notDeadShuffled| / 2;
  }

  /**
   * `updatePopulation`: every agent goes through its own transition, then
   * the agents still alive meet in shuffled pairs. The same array is
   * returned, its agents in their original order.
   */
  method UpdatePopulation(population: array<Agent>, params: Params, draws: Draws) returns (result: array<Agent>)
    requires ValidDraws(population[..], params, draws)
    modifies population
    ensures result == population
    ensures population[..] == Update(old(population[..]), params, draws)
  {
    ValidShuffle(population[..], params, draws);
    StepAgents(population, params, draws.deathRolls);
    var notDeadShuffled := draws.shuffle;
    MeetShuffledPairs(population, notDeadShuffled, draws.infectionRolls, params);
    result := population;
  }
}
