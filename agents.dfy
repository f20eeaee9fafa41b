/**
 * The records the disease model works on: one agent per simulated person,
 * the simulation parameters, and the random draws the engine consumes.
 */
module Agents {

  datatype Option<T> = None | Some(value: T)

  /**
   * One draw of `Math.random() * 100`: a real in [0, 100), compared with `<`
   * against a percentage.
   */
  type Roll = r: real | 0.0 <= r < 100.0

  /**
   * The tunable parameters: percentages for transmission and death, and the
   * number of steps that immunity and sickness last.
   */
  datatype Params = Params(
    infectionChance: real,
    deathPercentage: real,
    immunity: int,
    sickDays: int)

  /**
   * One person. `x` and `y` are the grid coordinates fixed at creation;
   * `partner` is the index of the agent met in the latest pairing, `None`
   * until the agent is first paired.
   */
  datatype Agent = Agent(
    id: int,
    x: real,
    y: real,
    infected: bool,
    newlyInfected: bool,
    dead: bool,
    sickDays: nat,
    immune: bool,
    immunity: nat,
    partner: Option<nat>)

  /** Neither infected, immune nor dead: open to infection. */
  predicate Susceptible(a: Agent) {
    !a.infected && !a.immune && !a.dead
  }

  /** The immune flag and the immunity counter agree. */
  predicate ImmunityConsistent(a: Agent) {
    a.immune <==> a.immunity >= 1
  }

  /** An agent that is not infected has no sick days counted. */
  predicate SicknessConsistent(a: Agent) {
    !a.infected ==> a.sickDays == 0
  }

  /** A dead agent carries no disease state and zero counters. */
  predicate DeadPinned(a: Agent) {
    a.dead ==> !a.infected && !a.immune && a.sickDays == 0 && a.immunity == 0
  }

  /** At most one of infected, immune and dead holds. */
  predicate Exclusive(a: Agent) {
    !(a.infected && a.immune) && (a.dead ==> !a.infected && !a.immune)
  }

  /** The newly-infected flag marks a living, infected agent. */
  predicate NewlyConsistent(a: Agent) {
    a.newlyInfected ==> a.infected && !a.dead
  }

  /** Identity and position: what no operation of the engine changes. */
  predicate SameIdentity(a: Agent, b: Agent) {
    a.id == b.id && a.x == b.x && a.y == b.y
  }
}
