/**
 * The population factory (`createPopulation`): `size` agents on a square-ish
 * grid, all susceptible except one patient zero.
 *
 * `Math.sqrt(size)` is the input `sideSize` and the random choice of patient
 * zero is the input `patientZero`.
 */
module Population {
  import opened Agents
  import opened Statistics

  /** JavaScript's `%` for a non-negative dividend and a positive divisor. */
  function Remainder(a: real, b: real): (r: real)
    requires a >= 0.0 && b > 0.0
    ensures 0.0 <= r < b
  {
    FloorBounds(a, b);
    a - b * ((a / b).Floor as real)
  }

  /** The x coordinate of agent `i`: its column scaled into [0, 100). */
  function GridX(i: nat, sideSize: real): (r: real)
    requires sideSize > 0.0
    ensures 0.0 <= r < 100.0
  {
    ScaledFraction(Remainder(i as real, sideSize), sideSize);
    100.0 * Remainder(i as real, sideSize) / sideSize
  }

  /** The y coordinate of agent `i`: its row scaled by the same factor. */
  function GridY(i: nat, sideSize: real): (r: real)
    requires sideSize > 0.0
    ensures 0.0 <= r
  {
    BelowQuotient(100.0 * ((i as real / sideSize).Floor as real), sideSize, 0.0);
    100.0 * ((i as real / sideSize).Floor as real) / sideSize
  }

  /** Agent `i` as first created: uninfected, alive, not immune, counters at zero. */
  function NewAgent(i: nat, sideSize: real): (r: Agent)
    requires sideSize > 0.0
    ensures r.id == i && r.x == GridX(i, sideSize) && r.y == GridY(i, sideSize)
    ensures Agents.Susceptible(r) && !r.newlyInfected && r.sickDays == 0 && r.immunity == 0
    ensures r.partner == None
    ensures 0.0 <= r.x < 100.0 && 0.0 <= r.y
  {
    Agent(i, GridX(i, sideSize), GridY(i, sideSize), false, false, false, 0, false, 0, None)
  }

  /** The population `createPopulation` returns. */
  function InitialPopulation(size: nat, sideSize: real, patientZero: nat): (r: seq<Agent>)
    requires patientZero < size && sideSize > 0.0
    ensures |r| == size
    ensures forall i :: 0 <= i < size && i != patientZero ==> r[i] == NewAgent(i, sideSize)
    ensures r[patientZero] == NewAgent(patientZero, sideSize).(infected := true, sickDays := 1)
  {
    var healthy := seq(size, i requires 0 <= i < size => NewAgent(i, sideSize));
    healthy[patientZero := healthy[patientZero].(infected := true, sickDays := 1)]
  }

  /**
   * `createPopulation`: `size` fresh agents with ids `0..size - 1`, then
   * patient zero infected with one sick day. An empty population is not
   * allowed: there would be no patient zero to infect.
   */
  method CreatePopulation(size: nat, sideSize: real, patientZero: nat) returns (population: array<Agent>)
    requires 1 <= size && patientZero < size && sideSize > 0.0
    ensures fresh(population)
    ensures population[..] == InitialPopulation(size, sideSize, patientZero)
  {
    population := new Agent[size];
    for i := 0 to size
      invariant forall k :: 0 <= k < i ==> population[k] == NewAgent(k, sideSize)
    {
      population[i] := Agent(i, 100.0 * Remainder(i as real, sideSize) / sideSize,
                             100.0 * ((i as real / sideSize).Floor as real) / sideSize,
                             false, false, false, 0, false, 0, None);
    }
    population[patientZero] := population[patientZero].(infected := true, sickDays := 1);
  }

  /**
   * The initial population has `size` agents with ids `0..size - 1` in
   * index order; patient zero is the one infected agent, with one sick day;
   * every other agent is fully susceptible with zero counters.
   */
  lemma PatientZeroUnique(size: nat, sideSize: real, patientZero: nat)
    requires patientZero < size && sideSize > 0.0
    ensures var s := InitialPopulation(size, sideSize, patientZero);
      |s| == size
      && (forall i :: 0 <= i < size ==>
            s[i].id == i && !s[i].dead && !s[i].immune && s[i].immunity == 0 && !s[i].newlyInfected)
      && s[patientZero].infected && s[patientZero].sickDays == 1
      && (forall i :: 0 <= i < size && i != patientZero ==> Agents.Susceptible(s[i]) && s[i].sickDays == 0)
      && Count(s, Infected) == 1 && Count(s, Immune) == 0 && Count(s, Dead) == 0
  {
    var s := InitialPopulation(size, sideSize, patientZero);
    CountIsCardinality(s, Infected);
    CountIsCardinality(s, Immune);
    CountIsCardinality(s, Dead);
    assert IndicesWith(s, Infected) == {patientZero};
    assert IndicesWith(s, Immune) == {};
    assert IndicesWith(s, Dead) == {};
  }

  /** The initial population satisfies every invariant a step keeps. */
  lemma InitialInvariants(size: nat, sideSize: real, patientZero: nat)
    requires patientZero < size && sideSize > 0.0
    ensures var s := InitialPopulation(size, sideSize, patientZero);
      forall i :: 0 <= i < size ==>
        ImmunityConsistent(s[i]) && SicknessConsistent(s[i]) && Exclusive(s[i])
        && DeadPinned(s[i]) && NewlyConsistent(s[i])
  {
  }

  lemma BelowQuotient(a: real, b: real, c: real)
    requires b > 0.0 && c * b <= a
    ensures c <= a / b
  {
  }

  lemma AboveQuotient(a: real, b: real, c: real)
    requires b > 0.0 && a < c * b
    ensures a / b < c
  {
  }

  lemma CastProduct(q: int, n: int)
    ensures (q * n) as real == (q as real) * (n as real)
  {
  }

  lemma MulMono(x: real, y: real, b: real)
    requires x <= y && b > 0.0
    ensures x * b <= y * b
  {
    assert (y - x) * b >= 0.0;
  }

  lemma MulStrict(x: real, y: real, b: real)
    requires x < y && b > 0.0
    ensures x * b < y * b
  {
    assert (y - x) * b > 0.0;
  }

  /** The quotient rounded down, times the divisor, lies within one divisor below the dividend. */
  lemma FloorBounds(a: real, b: real)
    requires a >= 0.0 && b > 0.0
    ensures var q := (a / b).Floor as real; q * b <= a < q * b + b
  {
    var x := a / b;
    var q := x.Floor as real;
    assert x * b == a;
    MulMono(q, x, b);
    MulStrict(x, q + 1.0, b);
    assert (q + 1.0) * b == q * b + b;
  }

  /** A value `100 * x / n` with `0 <= x < n` lies in [0, 100). */
  lemma ScaledFraction(x: real, n: real)
    requires 0.0 <= x < n
    ensures 0.0 <= 100.0 * x / n < 100.0
  {
    BelowQuotient(100.0 * x, n, 0.0);
    AboveQuotient(100.0 * x, n, 100.0);
  }

  /**
   * With `sideSize` the exact square root of `size`, every agent of the
   * population, square or not, has both coordinates in [0, 100).
   */
  lemma GridInRange(size: nat, sideSize: real, i: nat)
    requires sideSize > 0.0 && sideSize * sideSize == size as real && i < size
    ensures 0.0 <= GridX(i, sideSize) < 100.0 && 0.0 <= GridY(i, sideSize) < 100.0
  {
    var x := i as real / sideSize;
    AboveQuotient(i as real, sideSize, sideSize);
    assert (x.Floor as real) < sideSize;
    AboveQuotient(100.0 * (x.Floor as real), sideSize, 100.0);
  }

  /** Real division of naturals, rounded down, is integer division. */
  lemma QuotientFloor(i: nat, n: nat)
    requires n >= 1
    ensures ((i as real) / (n as real)).Floor == i / n
  {
    var q := i / n;
    assert q * n <= i < (q + 1) * n;
    CastProduct(q, n);
    CastProduct(q + 1, n);
    BelowQuotient(i as real, n as real, q as real);
    AboveQuotient(i as real, n as real, (q + 1) as real);
  }

  /**
   * For a perfect square `size = n * n` with `sideSize = n`, agent `i` sits
   * in column `i % n` and row `i / n`, scaled to [0, 100).
   */
  lemma SquareGrid(n: nat, i: nat)
    requires 1 <= n && i < n * n
    ensures GridX(i, n as real) == 100.0 * ((i % n) as real) / (n as real)
    ensures GridY(i, n as real) == 100.0 * ((i / n) as real) / (n as real)
    ensures 0.0 <= GridX(i, n as real) < 100.0 && 0.0 <= GridY(i, n as real) < 100.0
  {
    var q, r := i / n, i % n;
    QuotientFloor(i, n);
    CastProduct(n, q);
    assert i == n * q + r;
    assert Remainder(i as real, n as real) == (r as real);
    CastProduct(n, n);
    GridInRange(n * n, n as real, i);
  }

  /** The four agents of a population of 4 sit at (0,0), (50,0), (0,50) and (50,50). */
  lemma TwoByTwoGrid()
    ensures GridX(0, 2.0) == 0.0 && GridY(0, 2.0) == 0.0
    ensures GridX(1, 2.0) == 50.0 && GridY(1, 2.0) == 0.0
    ensures GridX(2, 2.0) == 0.0 && GridY(2, 2.0) == 50.0
    ensures GridX(3, 2.0) == 50.0 && GridY(3, 2.0) == 50.0
  {
    SquareGrid(2, 0);
    SquareGrid(2, 1);
    SquareGrid(2, 2);
    SquareGrid(2, 3);
  }
}
