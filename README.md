# Disease model engine, in Dafny

A model of the simulation engine of a classroom agent-based flu simulator
(`src/sims/simulationTwo/diseaseModel.js`). The population is a grid of
agents. Each agent can be infected, immune or dead, and carries two day
counters (`sickDays`, `immunity`). The engine has four parts:

- `createPopulation` builds the population and infects one patient zero.
- `updatePopulation` runs one step, in two loops. First each agent goes
  through its own transition: the newly-infected flag is cleared, then come
  the dead reset, the sick-day count, the immunity countdown, forced
  recovery and a death roll. Then the living agents are shuffled and walked
  two at a time. Within each pair, infection may pass from the infected
  agent to the other through `maybeInfectPerson`.
- `computeStatistics` counts the infected, immune and dead agents.
- `trackedStats` lists the keys of those counts.

The model keeps the code's imperative shape:

- The population is an `array<Agent>` of records. `createPopulation`'s
  loop is a `method` that fills a fresh array. Each loop of
  `updatePopulation` is a `method` that updates the array in place.
  `computeStatistics`'s loop only reads it.
- Every method is proved equal to a pure specification function. These are
  `InitialPopulation`, `MaybeInfect`, `AgentPhase`, `Meet`, `ContactPhase`,
  `Update` and `Count`.
- The properties are lemmas about those functions.

Randomness is an input:

- The patient-zero index.
- One death roll per agent (`Roll`, a real in [0, 100)). It is only looked
  at when the agent is still infected, as in the code's short-circuit `&&`.
- The shuffle: any reordering, counted with multiplicity, of the indices of
  the agents alive after the first loop (`Shuffle.IsShuffleOf`).
- One infection roll per pair. One roll per pair is enough: within a pair
  at most one `maybeInfectPerson` call can happen. If the first call
  infects B, then A was already infected, so the second guard fails.

`Math.sqrt(size)` is the input `sideSize`. Coordinates are computed over
exact reals.

Modules:

- `Agents`: the records.
- `Shuffle`: the shuffle contract.
- `Step`: the step engine and its specification.
- `StepProperties`: what a step guarantees.
- `Statistics`: the counts and `trackedStats`.
- `Population`: the factory.

An agent whose immunity expires in the first loop has `immunity = 0` when
the contact loop runs (lines 114-117). The infection guard at line 87
checks only `immunity === 0`, so that agent can be infected in the same
step. `StepProperties.ExpiredImmunityReinfectedSameStep` shows the case.

## Model

| member | source | states |
|---|---|---|
| Population.CreatePopulation | src/sims/simulationTwo/diseaseModel.js:63-83 | The new array holds `size` fresh agents, `id = i` at index `i`, with patient zero infected for one sick day. An empty population is excluded, since the code would dereference `population[0]`. |
| Population.PatientZeroUnique | src/sims/simulationTwo/diseaseModel.js:63-82 | The initial population has exactly `size` agents with ids `0..size-1` in order. Patient zero is the one infected agent, with `sickDays = 1`. Every other agent is uninfected, alive, not immune, with zero counters. The counts are 1 infected, 0 immune and 0 dead. |
| Population.InitialInvariants | src/sims/simulationTwo/diseaseModel.js:66-81 | The initial population satisfies every per-agent invariant a step keeps. |
| Population.InitialPopulation | src/sims/simulationTwo/diseaseModel.js:63-82 | The specification of the factory. It has `size` agents, each as first created, except that patient zero is infected with one sick day. |
| Population.NewAgent | src/sims/simulationTwo/diseaseModel.js:67-76 | Agent `i` as first pushed: id `i`, coordinates `GridX`/`GridY` (x in [0, 100), y non-negative), uninfected, alive, not immune, both counters 0, `newlyInfected = false` and `partner = None`. |
| Population.Remainder | src/sims/simulationTwo/diseaseModel.js:69 | JavaScript's `%` on a non-negative value lies in [0, divisor). |
| Population.GridX | src/sims/simulationTwo/diseaseModel.js:69 | The column coordinate lies in [0, 100). |
| Population.GridY | src/sims/simulationTwo/diseaseModel.js:70 | The row coordinate is non-negative. |
| Population.GridInRange | src/sims/simulationTwo/diseaseModel.js:65-70 | With `sideSize` the exact square root of `size`, square or not, every agent's two coordinates lie in [0, 100). |
| Population.SquareGrid | src/sims/simulationTwo/diseaseModel.js:65-70 | For `size = n*n`, agent `i` sits at column `i mod n` and row `i div n`, scaled by `100/n`, both coordinates in [0, 100). |
| Population.TwoByTwoGrid | src/sims/simulationTwo/diseaseModel.js:65-70 | A population of 4 sits at (0,0), (50,0), (0,50) and (50,50). |
| Step.MaybeInfect | src/sims/simulationTwo/diseaseModel.js:85-92 | The agent ends infected exactly when it already was, or when the roll is below the chance and it is alive with a zero immunity counter. On success only `infected` and `newlyInfected` are set. An already infected person comes back unchanged, and `newlyInfected` is set exactly on a new infection. |
| Step.MaybeInfectPerson | src/sims/simulationTwo/diseaseModel.js:85-92 | In place, only index `j` changes, and it becomes `MaybeInfect` of its old value. |
| Step.BeforeDeathRoll | src/sims/simulationTwo/diseaseModel.js:106-124 | After the sick-day count, the immunity countdown and the recovery check, an agent is never both infected and immune, and immune implies a positive counter. Identity and partner are untouched. |
| Step.SickDay | src/sims/simulationTwo/diseaseModel.js:106-108 | Only `sickDays` changes, growing by one exactly when the agent is infected. |
| Step.AgeImmunity | src/sims/simulationTwo/diseaseModel.js:109-118 | A non-immune agent is untouched. An immune one loses its infection and its sick days. It stays immune with its counter one higher while that stays within the parameter, and otherwise ends with `immune = false, immunity = 0`. |
| Step.Recover | src/sims/simulationTwo/diseaseModel.js:119-124 | Past the sick-days parameter, the agent becomes uninfected and immune, with counter 1 and no sick days. Otherwise it is untouched. |
| Step.DeathRoll | src/sims/simulationTwo/diseaseModel.js:125-130 | The agent ends dead exactly when it was dead, or was infected and rolled below the death percentage. A death clears the infection and zeroes both counters. Without a death nothing changes, and only the disease fields can ever change. |
| Step.StepAgent | src/sims/simulationTwo/diseaseModel.js:97-131 | One agent's first-loop transition. The id, coordinates and partner are unchanged, and `newlyInfected` is cleared. Dead stays dead. A dead agent is pinned at zero, and infected, immune and dead exclude each other. Immune implies `immunity >= 1`. Both consistency invariants are preserved. A newly dead agent was still infected after the recovery check and rolled below the death percentage. |
| Step.StepAgents | src/sims/simulationTwo/diseaseModel.js:97-131 | The first loop, in place, leaves the array equal to `AgentPhase` of its old contents. |
| Step.AgentPhase | src/sims/simulationTwo/diseaseModel.js:97-131 | The specification of the first loop. It keeps the length, each agent's identity and every death, and clears every newly-infected flag. |
| Step.Living | src/sims/simulationTwo/diseaseModel.js:133 | The filter yields exactly the indices of the living agents, strictly increasing, and no more indices than agents. |
| Shuffle.ShuffleFacts | src/sims/simulationTwo/diseaseModel.js:133 | A shuffle of the living indices has the same length and the same elements, and no repetitions. |
| Step.ValidDraws | src/sims/simulationTwo/diseaseModel.js:125 | The random draws of one step. There is one death roll per agent (line 125). The shuffle is a multiset reordering of the agents alive after the first loop (the filter and shuffle at line 133). There are at least half as many pair rolls as shuffled agents, rounded down (line 86). |
| Step.ValidDrawsExist | src/sims/simulationTwo/diseaseModel.js:133 | Valid draws exist for every population and every choice of death rolls, so the requirement on `updatePopulation` excludes no population. |
| Step.ValidShuffle | src/sims/simulationTwo/diseaseModel.js:133 | The shuffle indexes distinct agents, each alive after the first loop, and includes all of them. |
| Step.Outcome | src/sims/simulationTwo/diseaseModel.js:146-151 | One side of a meeting changes at most its infection flags. It ends infected iff it was infected, or its partner was infected and it was alive, with zero immunity and a roll below the chance. `newlyInfected` is set exactly on a new infection. |
| Step.Meet | src/sims/simulationTwo/diseaseModel.js:136-151 | A meeting changes only the two agents. Each records the other as partner and ends as `Outcome` of its meeting with the other's prior state. |
| Step.MeetInPlace | src/sims/simulationTwo/diseaseModel.js:136-151 | In place, the array becomes `Meet` of its old contents. |
| Step.MeetPairs | src/sims/simulationTwo/diseaseModel.js:135-152 | Meeting the first `k` pairs keeps the population's length. |
| Step.MeetPairsEffect | src/sims/simulationTwo/diseaseModel.js:135-152 | Contact changes only infection flags and partners. It never clears an infection or the newly-infected flag, and a new infection reaches only a living agent with a zero immunity counter. |
| Step.MeetNextPair | src/sims/simulationTwo/diseaseModel.js:135-137 | Pair number `k` consists of shuffled positions `2k` and `2k+1`, with its own roll. |
| Step.MeetShuffledPairs | src/sims/simulationTwo/diseaseModel.js:135-152 | The second loop, in place, leaves the array equal to `ContactPhase` of its old contents. |
| Step.ContactPhase | src/sims/simulationTwo/diseaseModel.js:135-152 | The specification of the contact loop. It keeps the length and has only a contact effect on each agent: flags and partner change, no infection is cleared, and only living agents with zero immunity are newly infected. |
| Step.Update | src/sims/simulationTwo/diseaseModel.js:95-156 | The specification of a step. It keeps the length, and takes each agent by a contact effect from where the first loop left it. |
| Step.UpdatePopulation | src/sims/simulationTwo/diseaseModel.js:95-156 | The same array is returned, in its original order, holding `Update` of its old contents. |
| Step.ContactEffectTransitive | src/sims/simulationTwo/diseaseModel.js:135-152 | The effect of two rounds of contact is itself a contact effect. |
| StepProperties.MeetPairsUnpaired | src/sims/simulationTwo/diseaseModel.js:135-152 | After `k` pairs, an agent outside the first `2k` shuffled positions is unchanged. |
| StepProperties.MeetPairsPaired | src/sims/simulationTwo/diseaseModel.js:135-152 | After `k` pairs, the agent at shuffled position `q < 2k` ends as its single meeting with `Mate(q)` left it. |
| StepProperties.MeetPairsLastPaired | src/sims/simulationTwo/diseaseModel.js:135-152 | The agents of the latest pair end as their meeting left them. |
| StepProperties.MeetLastPair | src/sims/simulationTwo/diseaseModel.js:136-137 | The two agents of a pair meet as they were before the contact loop. |
| StepProperties.ContactAt | src/sims/simulationTwo/diseaseModel.js:135-152 | Only pairs at shuffled positions `(2k, 2k+1)` interact. Any other agent is untouched, and a paired agent ends as `Outcome` of meeting its mate. |
| StepProperties.OddAgentOut | src/sims/simulationTwo/diseaseModel.js:135 | With an odd number of living agents, the last one in the shuffle is untouched. |
| StepProperties.InfectionNeedsInfectedPartner | src/sims/simulationTwo/diseaseModel.js:85-151 | An agent infected by contact had an infected partner, was uninfected, alive, with zero immunity, and its pair's roll was below the chance. Only its infection flags and partner changed. |
| StepProperties.NoTransmissionAtZeroChance | src/sims/simulationTwo/diseaseModel.js:85-92 | With an infection chance of 0, contact changes no agent's infection flags. |
| StepProperties.CertainTransmission | src/sims/simulationTwo/diseaseModel.js:85-151 | With an infection chance of 100, an uninfected, living, zero-immunity agent paired with an infected one becomes infected and newly infected. |
| StepProperties.ProtectedFromContact | src/sims/simulationTwo/diseaseModel.js:87 | An infected agent, a dead one, or one with a positive immunity counter leaves contact unchanged apart from its partner. |
| StepProperties.UpdateKeepsIdentity | src/sims/simulationTwo/diseaseModel.js:95-156 | A step keeps the length, the order, the ids and the coordinates. |
| StepProperties.DeadIsAbsorbing | src/sims/simulationTwo/diseaseModel.js:99-104 | An agent dead before a step is not shuffled for pairing. It ends dead, uninfected, not immune, not newly infected, with zero counters and its old partner. |
| StepProperties.StepInvariants | src/sims/simulationTwo/diseaseModel.js:98-130 | After any step, infected, immune and dead exclude each other, and newly infected implies infected and alive. Dead agents are pinned at zero, and immune implies `immunity >= 1`. |
| StepProperties.StepConservation | src/sims/simulationTwo/diseaseModel.js:95-184 | After any step, infected + immune + dead + susceptible equals the population size. |
| StepProperties.StepKeepsImmunityConsistent | src/sims/simulationTwo/diseaseModel.js:109-124 | A step preserves `immune <==> immunity >= 1` for everybody. |
| StepProperties.StepKeepsSicknessConsistent | src/sims/simulationTwo/diseaseModel.js:106-130 | A step preserves `!infected ==> sickDays == 0` for everybody. |
| StepProperties.NoDeathsAtZeroPercentage | src/sims/simulationTwo/diseaseModel.js:125-130 | With a death percentage of 0, nobody's `dead` flag changes. |
| StepProperties.NoInfectionAtZeroChance | src/sims/simulationTwo/diseaseModel.js:85-92 | With an infection chance of 0, a step leaves nobody newly infected and infects nobody who was not infected. |
| StepProperties.ImmuneTimeline | src/sims/simulationTwo/diseaseModel.js:109-118 | A living immune agent ends its transition uninfected, alive, with no sick days. Its counter grows by one, or immunity expires to `immune = false, immunity = 0` once the count exceeds the parameter. |
| StepProperties.SickTimeline | src/sims/simulationTwo/diseaseModel.js:106-130 | A living, infected, non-immune agent counts a sick day. Past the parameter it recovers into immunity with counter 1. Otherwise its death roll decides whether it dies with zeroed counters. |
| StepProperties.NegativeSickDaysForcesImmunity | src/sims/simulationTwo/diseaseModel.js:119-124 | With a negative sick-days parameter, every living agent ends its transition uninfected, alive and immune, with counter 1 and no sick days. |
| StepProperties.PatientZeroTimeline | src/sims/simulationTwo/diseaseModel.js:106-124 | This lemma iterates only the first-loop transition `StepAgent`, with death rolls 0 and no contact phase. With 7 sick days and 5 days of immunity, patient zero has 7 sick days after 6 such transitions and is immune with counter 1 after 7. It has counter 5 after 11 and is susceptible again after 12. |
| StepProperties.ExampleFirstLoop | src/sims/simulationTwo/diseaseModel.js:106-118 | In the example, the first loop counts a sick day for patient zero and expires the other agent's immunity. |
| StepProperties.ExampleDrawsValid | src/sims/simulationTwo/diseaseModel.js:133 | The example's shuffle is a valid shuffle of the living agents. |
| StepProperties.ExpiredImmunityReinfectedSameStep | src/sims/simulationTwo/diseaseModel.js:114-151 | An agent whose immunity expires in the first loop can be infected in the contact loop of the same step. |
| Statistics.Count | src/sims/simulationTwo/diseaseModel.js:168-184 | A count never exceeds the population size. |
| Statistics.CountIsCardinality | src/sims/simulationTwo/diseaseModel.js:172-182 | A count is the number of positions holding an agent with the flag. |
| Statistics.IndicesOfPrefix | src/sims/simulationTwo/diseaseModel.js:172-182 | Dropping the last agent removes only its position from the set of flagged positions. |
| Statistics.Conservation | src/sims/simulationTwo/diseaseModel.js:168-184 | When infected, immune and dead exclude each other, the four counts sum to the population size. |
| Statistics.ComputeStatistics | src/sims/simulationTwo/diseaseModel.js:168-184 | Returns the round unchanged and the exact numbers of infected, immune and dead agents. Each count is at most the size, all are 0 for an empty population, and the array is only read. |
| Statistics.TRACKED_STATS | src/sims/simulationTwo/diseaseModel.js:161-165 | The three tracked statistics, with their labels and the keys `infected`, `immune` and `dead`. |
| Statistics.TrackedStatsAreCounted | src/sims/simulationTwo/diseaseModel.js:161-165 | Every tracked statistic names a key of the statistics record, and the record holds the count of that field under it. |

## Left out

- `Math.random()` is not modelled as a source of randomness. Its draws are inputs: the patient-zero index, a death roll per agent, the shuffle, and an infection roll per pair.
- The shuffler (`shufflePopulation` from `../../lib/shufflePopulation`) is not part of this model. Its implementation is not visible, so the shuffle is any reordering of the living indices.
- Floating point is not modelled. `Math.sqrt(size)` is the parameter `sideSize`, and coordinates use exact reals. The closed-form column and row are proved only for perfect squares (`SquareGrid`). The [0, 100) bounds hold for any size (`GridInRange`).
- Object identity is not modelled. Agents are records written back into the array, and the shuffled list holds indices into it. So aliasing of agent objects, for example by the controller's shallow array copy, is not modelled.
- `partner` is not an object reference. It is the index of the agent met last, `None` until the first pairing.
- Fields the code never initialises are modelled as initialised. `newlyInfected` and `partner`, absent at creation, are modelled as `false` and `None`.
- Fractional sizes are not modelled. `Simulation.jsx` takes the square root of the entered size and squares it again before calling `createPopulation`. For a non-square entry this can give a value such as `10.000000000000002`, and then the loop at line 66 builds one extra agent. `size` is a natural number here.
- The default `size = 1600` of `createPopulation` is not modelled. `size` is always passed.
- `defaultSimulationParameters`, `Simulation.jsx` (UI state, timers, rendering) and `App.jsx` (view switching) are not modelled. They are configuration and UI, not engine logic.
- ImmuneTimeline: requires `params.sickDays >= 0`. With a negative parameter, the recovery check at line 119 makes every living agent immune again with counter 1. `NegativeSickDaysForcesImmunity` states that case.
- Statistics.Count: the counts are proved to be the sizes of sets of positions, but no lemma states that they are invariant under reordering the population.
