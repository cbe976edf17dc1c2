/** The life-statistics computation of the "Scary Life Numbers" calculator:
    a static life-expectancy table with a default, the years a person has
    left, and the six metrics derived from them.

    Every input is a Python `int` in the Python calculator (they come from
    integer sliders), and Python integers are unbounded, so `int` is exact here.
    The one division, `sleep_hours / 24`, is Python true division; it is
    modelled as an exact `real` rather than an IEEE double. */
module LifeTimeCalculator {

  /** Expectancy used for a country that is not in the table. */
  const DefaultLifeExpectancy: int := 80

  /** The age at which the working horizon ends. */
  const RetirementAge: int := 65

  /** Working weeks counted per year of work. */
  const WorkWeeksPerYear: int := 50

  /** Average life expectancy, in years, per country. */
  const AvgLifeExpectancy: map<string, int> := map[
    "USA" := 77, "UK" := 81, "Germany" := 80, "Spain" := 83, "Poland" := 78,
    "France" := 82, "Japan" := 84, "India" := 70, "China" := 76, "Brazil" := 75
  ]

  /** The ten countries the table lists. */
  const ListedCountries: set<string> :=
    {"USA", "UK", "Germany", "Spain", "Poland", "France", "Japan", "India", "China", "Brazil"}

  /** The table lookup with its fallback: a listed country gets its table
      value, any other string gets the default. Every answer is one of the
      table's values or the default, so it lies between 70 and 84. */
  function LifeExpectancy(country: string): (years: int)
    ensures country in ListedCountries ==> years == AvgLifeExpectancy[country]
    ensures country !in ListedCountries ==> years == DefaultLifeExpectancy
    ensures 70 <= years <= 84
  {
    if country in AvgLifeExpectancy then AvgLifeExpectancy[country] else DefaultLifeExpectancy
  }

  /** Years remaining for someone of the given age: the least non-negative
      number of years that brings the age up to the country's expectancy. */
  function TimeLeft(age: int, country: string): (years: int)
    ensures years >= 0
    ensures age + years >= LifeExpectancy(country)
    ensures years == 0 || age + years == LifeExpectancy(country)
    ensures years == 0 <==> age >= LifeExpectancy(country)
  {
    Max(LifeExpectancy(country) - age, 0)
  }

  /** Years of work left: bounded both by retirement and by the years left,
      and equal to one of the two. It is not floored at zero, so it is
      negative exactly when the age is past retirement. */
  function WorkYears(age: int, country: string): (years: int)
    ensures years <= TimeLeft(age, country) && years <= RetirementAge - age
    ensures years == TimeLeft(age, country) || years == RetirementAge - age
    ensures years < 0 <==> age > RetirementAge
  {
    Min(RetirementAge - age, TimeLeft(age, country))
  }

  /** The six metrics the calculator reports. */
  datatype LifeStats = LifeStats(
    yearsLeft: int,
    summersLeft: int,
    christmasesLeft: int,
    visitsWithParents: int,
    totalWorkHoursLeft: int,
    totalSleepYears: real)

  /** All six metrics for one profile. `kidAge` is accepted and ignored, as
      in the Python calculator. The parent's remaining years are looked up with the
      user's own country. */
  function CalculateMetrics(age: int, country: string, workHours: int, sleepHours: int,
                            parentAge: int, visitsPerYear: int, kidAge: int): (m: LifeStats)
    ensures m.yearsLeft == TimeLeft(age, country) && m.yearsLeft >= 0
    ensures m.summersLeft == m.yearsLeft && m.christmasesLeft == m.yearsLeft
    ensures m.visitsWithParents == TimeLeft(parentAge, country) * visitsPerYear
    ensures m.totalWorkHoursLeft == WorkYears(age, country) * workHours * WorkWeeksPerYear
    ensures m.totalSleepYears == SleepYears(sleepHours, m.yearsLeft)
  {
    var yearsLeft := TimeLeft(age, country);
    var summersLeft := yearsLeft;
    var christmasLeft := yearsLeft;
    var parentYearsLeft := TimeLeft(parentAge, country);
    var visitsWithParents := parentYearsLeft * visitsPerYear;
    var workYears := WorkYears(age, country);
    var workHoursLeft := workYears * workHours * WorkWeeksPerYear;
    var sleepYears := SleepYears(sleepHours, yearsLeft);
    LifeStats(yearsLeft, summersLeft, christmasLeft, visitsWithParents, workHoursLeft, sleepYears)
  }

  /** Years spent asleep out of `yearsLeft`, sleeping `sleepHours` a day:
      sleep years are to the years left as the sleep hours are to a day. */
  function SleepYears(sleepHours: int, yearsLeft: int): (years: real)
    ensures years * 24.0 == sleepHours as real * yearsLeft as real
  {
    (sleepHours as real / 24.0) * yearsLeft as real
  }

  function Max(a: int, b: int): (r: int)
    ensures r >= a && r >= b && (r == a || r == b)
  {
    if a >= b then a else b
  }

  function Min(a: int, b: int): (r: int)
    ensures r <= a && r <= b && (r == a || r == b)
  {
    if a <= b then a else b
  }
}
