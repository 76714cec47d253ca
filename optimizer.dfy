/**
  The two weight functions of optimizer.py. Each takes a tract's population,
  salary figure, baseline attainment percentage and predicted attainment
  percentage, and blends the tract's salary with a fixed reference salary in
  proportion to the predicted gain in attainment. Arithmetic is over `real`.
 */
module Optimizer {

  /** The reference salary both weight functions blend towards. */
  const ReferenceSalary: real := 50516.0

  /** The attainment gain credited to a tract: the predicted increase, or zero
      when the prediction is no better than the baseline. */
  function AttainmentGain(pct: real, pctPred: real): (diff: real)
    ensures diff >= 0.0 && diff >= pctPred - pct
    ensures diff == 0.0 || diff == pctPred - pct
  {
    if pctPred - pct > 0.0 then pctPred - pct else 0.0
  }

  /** compute_added_average_salary: the tract's salary after moving a fraction
      `diff` of it to the reference salary. The population is ignored. */
  function AddedAverageSalary(population: real, salary: real, pct: real, pctPred: real): (r: real)
    ensures r == salary + AttainmentGain(pct, pctPred) * (ReferenceSalary - salary)
  {
    var diff := AttainmentGain(pct, pctPred);
    salary * (1.0 - diff) + ReferenceSalary * diff
  }

  /** compute_added_total_salary: the same blend, scaled by the population. */
  function AddedTotalSalary(population: real, salary: real, pct: real, pctPred: real): (r: real)
    ensures r == population * AddedAverageSalary(population, salary, pct, pctPred)
  {
    var diff := AttainmentGain(pct, pctPred);
    salary * (1.0 - diff) * population + ReferenceSalary * diff * population
  }

  /** No predicted improvement: the average variant returns the salary itself. */
  lemma NoGainKeepsSalary(population: real, salary: real, pct: real, pctPred: real)
    requires pctPred <= pct
    ensures AttainmentGain(pct, pctPred) == 0.0
    ensures AddedAverageSalary(population, salary, pct, pctPred) == salary
    ensures AddedTotalSalary(population, salary, pct, pctPred) == population * salary
  {
  }

  /** The first (population) argument of the average variant plays no part. */
  lemma AverageIgnoresPopulation(p1: real, p2: real, salary: real, pct: real, pctPred: real)
    ensures AddedAverageSalary(p1, salary, pct, pctPred) == AddedAverageSalary(p2, salary, pct, pctPred)
  {
  }

  /** A tract paid below the reference salary is never credited less than its
      own salary, and a gain of at most one keeps the result at or below the
      reference salary. */
  lemma AverageBetweenSalaryAndReference(population: real, salary: real, pct: real, pctPred: real)
    requires salary <= ReferenceSalary
    ensures salary <= AddedAverageSalary(population, salary, pct, pctPred)
    ensures AttainmentGain(pct, pctPred) <= 1.0 ==> AddedAverageSalary(population, salary, pct, pctPred) <= ReferenceSalary
  {
    var diff := AttainmentGain(pct, pctPred);
    var gap := ReferenceSalary - salary;
    assert diff * gap >= 0.0;
    if diff <= 1.0 {
      assert diff * gap <= gap by {
        assert (1.0 - diff) * gap >= 0.0;
      }
    }
  }

  /** Neither weight function subtracts the baseline salary: what they return
      is the blended salary, which exceeds the net gain by exactly `salary`
      (per tract) or `population * salary` (in total). */
  lemma ResultIsGrossNotNet(population: real, salary: real, pct: real, pctPred: real)
    ensures AddedAverageSalary(population, salary, pct, pctPred) - salary
            == AttainmentGain(pct, pctPred) * (ReferenceSalary - salary)
    ensures AddedTotalSalary(population, salary, pct, pctPred) - population * salary
            == population * AttainmentGain(pct, pctPred) * (ReferenceSalary - salary)
  {
  }

  /** Population 1000, salary 40000, baseline 0.2, prediction 0.3: the gain is
      0.1 and the functions return 41051.6 and 41051600, the net benefit
      1051.6 plus the baseline salary. */
  lemma WorkedExample()
    ensures AttainmentGain(0.2, 0.3) == 0.1
    ensures AddedAverageSalary(1000.0, 40000.0, 0.2, 0.3) == 41051.6
    ensures AddedAverageSalary(1000.0, 40000.0, 0.2, 0.3) - 40000.0 == 1051.6
    ensures AddedTotalSalary(1000.0, 40000.0, 0.2, 0.3) == 41051600.0
  {
  }
}
