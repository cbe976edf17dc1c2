/** Properties of the life-statistics computation that relate several
    calls, or that hold over a range of inputs. */
module LifeTimeProperties {
  import opened LifeTimeCalculator

  /** The table holds exactly the ten listed countries with these values. */
  lemma TableContents()
    ensures AvgLifeExpectancy.Keys == ListedCountries
    ensures LifeExpectancy("USA") == 77 && LifeExpectancy("UK") == 81
    ensures LifeExpectancy("Germany") == 80 && LifeExpectancy("Spain") == 83
    ensures LifeExpectancy("Poland") == 78 && LifeExpectancy("France") == 82
    ensures LifeExpectancy("Japan") == 84 && LifeExpectancy("India") == 70
    ensures LifeExpectancy("China") == 76 && LifeExpectancy("Brazil") == 75
  {
  }

  /** An unlisted country, such as "Narnia", gives exactly the metrics of a
      listed country whose expectancy is the default 80 years, for every
      profile. */
  lemma UnlistedCountryFallsBack(age: int, country: string, workHours: int, sleepHours: int,
                                 parentAge: int, visitsPerYear: int, kidAge: int)
    requires country !in ListedCountries
    ensures CalculateMetrics(age, country, workHours, sleepHours, parentAge, visitsPerYear, kidAge)
         == CalculateMetrics(age, "Germany", workHours, sleepHours, parentAge, visitsPerYear, kidAge)
  {
  }

  /** Getting older never adds years left, and one more year of age takes
      away at most one year left. */
  lemma TimeLeftAntitone(younger: int, older: int, country: string)
    requires younger <= older
    ensures TimeLeft(older, country) <= TimeLeft(younger, country)
    ensures TimeLeft(younger, country) - TimeLeft(older, country) <= older - younger
  {
  }

  /** The kid's age never changes any metric. */
  lemma KidAgeIrrelevant(age: int, country: string, workHours: int, sleepHours: int,
                         parentAge: int, visitsPerYear: int, kidAge1: int, kidAge2: int)
    ensures CalculateMetrics(age, country, workHours, sleepHours, parentAge, visitsPerYear, kidAge1)
         == CalculateMetrics(age, country, workHours, sleepHours, parentAge, visitsPerYear, kidAge2)
  {
  }

  /** a <= b and c >= 0 give a * c <= b * c. */
  lemma {:induction false} MulLeftMonotone(a: int, b: int, c: nat)
    requires a <= b
    ensures a * c <= b * c
  {
    if c > 0 {
      MulLeftMonotone(a, b, c - 1);
      assert a * c == a * (c - 1) + a;
      assert b * c == b * (c - 1) + b;
    }
  }

  /** A product of two non-negative integers is non-negative. */
  lemma MulNonNegative(a: int, b: int)
    requires a >= 0 && b >= 0
    ensures a * b >= 0
  {
    MulLeftMonotone(0, a, b);
  }

  /** Visits with parents are never negative when the visit frequency is
      not, and they are zero exactly when there are no visits a year or the
      parent has reached the country's expectancy. */
  lemma VisitsWithParentsBounds(age: int, country: string, workHours: int, sleepHours: int,
                                parentAge: int, visitsPerYear: int, kidAge: int)
    requires visitsPerYear >= 0
    ensures var m := CalculateMetrics(age, country, workHours, sleepHours, parentAge, visitsPerYear, kidAge);
      && 0 <= m.visitsWithParents
      && (m.visitsWithParents == 0 <==> visitsPerYear == 0 || parentAge >= LifeExpectancy(country))
  {
    var p := TimeLeft(parentAge, country);
    MulNonNegative(p, visitsPerYear);
    if p > 0 && visitsPerYear > 0 {
      MulLeftMonotone(1, p, visitsPerYear);
    }
  }

  /** An older parent leaves no more visits than a younger one, for the same
      country and a non-negative visit frequency. */
  lemma VisitsAntitoneInParentAge(country: string, youngerParent: int, olderParent: int, visitsPerYear: int)
    requires youngerParent <= olderParent && visitsPerYear >= 0
    ensures TimeLeft(olderParent, country) * visitsPerYear <= TimeLeft(youngerParent, country) * visitsPerYear
  {
    TimeLeftAntitone(youngerParent, olderParent, country);
    MulLeftMonotone(TimeLeft(olderParent, country), TimeLeft(youngerParent, country), visitsPerYear);
  }

  /** Work hours left are bounded by a full working life until the years
      left run out, and until retirement. For a positive weekly workload they
      are negative exactly when the age is past retirement. */
  lemma WorkHoursBounds(age: int, country: string, workHours: int, sleepHours: int,
                        parentAge: int, visitsPerYear: int, kidAge: int)
    requires workHours >= 0
    ensures var m := CalculateMetrics(age, country, workHours, sleepHours, parentAge, visitsPerYear, kidAge);
      && m.totalWorkHoursLeft <= m.yearsLeft * workHours * WorkWeeksPerYear
      && m.totalWorkHoursLeft <= (RetirementAge - age) * workHours * WorkWeeksPerYear
      && (workHours > 0 ==> (m.totalWorkHoursLeft < 0 <==> age > RetirementAge))
  {
    var w := WorkYears(age, country);
    MulLeftMonotone(w, TimeLeft(age, country), workHours);
    MulLeftMonotone(w, RetirementAge - age, workHours);
    if workHours > 0 {
      if w < 0 {
        MulLeftMonotone(w, -1, workHours);
      } else {
        MulNonNegative(w, workHours);
      }
    }
  }

  /** Sleep years lie between 0 and the years left when the nightly sleep is
      between 0 and 24 hours; 24 hours of sleep take up every year left and
      none take up nothing. */
  lemma SleepYearsWithin(sleepHours: int, yearsLeft: int)
    requires 0 <= sleepHours <= 24 && yearsLeft >= 0
    ensures 0.0 <= SleepYears(sleepHours, yearsLeft) <= yearsLeft as real
    ensures sleepHours == 24 ==> SleepYears(sleepHours, yearsLeft) == yearsLeft as real
    ensures sleepHours == 0 ==> SleepYears(sleepHours, yearsLeft) == 0.0
  {
    ShareBetween(SleepYears(sleepHours, yearsLeft), sleepHours as real, yearsLeft as real, 0.0, 24.0);
  }

  /** The sleep metric of a whole profile lies between 0 and its years left. */
  lemma SleepYearsBounds(age: int, country: string, workHours: int, sleepHours: int,
                         parentAge: int, visitsPerYear: int, kidAge: int)
    requires 0 <= sleepHours <= 24
    ensures var m := CalculateMetrics(age, country, workHours, sleepHours, parentAge, visitsPerYear, kidAge);
      && 0.0 <= m.totalSleepYears <= m.yearsLeft as real
      && (sleepHours == 24 ==> m.totalSleepYears == m.yearsLeft as real)
  {
    SleepYearsWithin(sleepHours, TimeLeft(age, country));
  }

  /** The two worked examples: a 30-year-old in the USA working 40 hours a
      week, sleeping 8 hours, with a 65-year-old parent seen 5 times a year;
      and the same person in an unlisted country. */
  lemma WorkedExamples()
    ensures CalculateMetrics(30, "USA", 40, 8, 65, 5, 0)
         == LifeStats(47, 47, 47, 60, 70000, 47.0 / 3.0)
    ensures CalculateMetrics(30, "Narnia", 40, 8, 65, 5, 0)
         == LifeStats(50, 50, 50, 75, 70000, 50.0 / 3.0)
  {
  }

  /** The ranges the calculator's sliders allow, with the country chosen
      from the table. */
  predicate WithinSliderRanges(age: int, country: string, workHours: int, sleepHours: int,
                               parentAge: int, visitsPerYear: int, kidAge: int)
  {
    && 18 <= age <= 100
    && country in ListedCountries
    && 0 <= workHours <= 80
    && 4 <= sleepHours <= 12
    && 40 <= parentAge <= 100
    && 0 <= visitsPerYear <= 52
    && 0 <= kidAge <= 30
  }

  /** Within the sliders' ranges every metric stays in a fixed interval:
      at most 66 years left, at most 44 * 52 visits, work hours between
      -35 and 47 working years of 80-hour weeks, and sleep between a sixth
      and a half of the years left. */
  lemma SliderRangeBounds(age: int, country: string, workHours: int, sleepHours: int,
                          parentAge: int, visitsPerYear: int, kidAge: int)
    requires WithinSliderRanges(age, country, workHours, sleepHours, parentAge, visitsPerYear, kidAge)
    ensures var m := CalculateMetrics(age, country, workHours, sleepHours, parentAge, visitsPerYear, kidAge);
      && 0 <= m.yearsLeft <= 66
      && 0 <= m.visitsWithParents <= 44 * 52
      && -35 * 80 * WorkWeeksPerYear <= m.totalWorkHoursLeft <= 47 * 80 * WorkWeeksPerYear
      && 2.0 * m.totalSleepYears <= m.yearsLeft as real <= 6.0 * m.totalSleepYears
  {
    VisitsWithinSliders(country, parentAge, visitsPerYear);
    WorkHoursWithinSliders(age, country, workHours);
    SleepYearsBetween(sleepHours, TimeLeft(age, country));
  }

  /** A parent of 40 to 100 in a listed country, seen at most 52 times a
      year, gives between 0 and 44 * 52 visits: at most 84 - 40 years left. */
  lemma VisitsWithinSliders(country: string, parentAge: int, visitsPerYear: int)
    requires 40 <= parentAge <= 100 && country in ListedCountries && 0 <= visitsPerYear <= 52
    ensures 0 <= TimeLeft(parentAge, country) * visitsPerYear <= 44 * 52
  {
    var p := TimeLeft(parentAge, country);
    MulNonNegative(p, visitsPerYear);
    MulLeftMonotone(p, 44, visitsPerYear);
    MulLeftMonotone(visitsPerYear, 52, 44);
  }

  /** A worker of 18 to 100 has between 65 - 100 = -35 and 65 - 18 = 47
      work years, so at up to 80 hours a week the work hours left lie
      between -35 and 47 years of 80-hour weeks. */
  lemma WorkHoursWithinSliders(age: int, country: string, workHours: int)
    requires 18 <= age <= 100 && 0 <= workHours <= 80
    ensures -35 * 80 * WorkWeeksPerYear <= WorkYears(age, country) * workHours * WorkWeeksPerYear
    ensures WorkYears(age, country) * workHours * WorkWeeksPerYear <= 47 * 80 * WorkWeeksPerYear
  {
    var w := WorkYears(age, country);
    MulLeftMonotone(-35, w, workHours);
    MulLeftMonotone(w, 47, workHours);
  }

  /** Four to twelve hours of sleep a night take between a sixth and a half
      of the years left. */
  lemma SleepYearsBetween(sleepHours: int, yearsLeft: int)
    requires 4 <= sleepHours <= 12 && yearsLeft >= 0
    ensures 2.0 * SleepYears(sleepHours, yearsLeft) <= yearsLeft as real <= 6.0 * SleepYears(sleepHours, yearsLeft)
  {
    ShareBetween(SleepYears(sleepHours, yearsLeft), sleepHours as real, yearsLeft as real, 4.0, 12.0);
  }

  /** A share of `y` years taken at `h` hours out of 24 lies between the
      shares taken at `lo` and at `hi` hours. */
  lemma ShareBetween(share: real, h: real, y: real, lo: real, hi: real)
    requires share * 24.0 == h * y && lo <= h <= hi && y >= 0.0
    ensures lo * y <= share * 24.0 <= hi * y
  {
    RealScaleBetween(lo, h, hi, y);
  }

  /** lo <= f <= hi and y >= 0 give lo * y <= f * y <= hi * y. */
  lemma RealScaleBetween(lo: real, f: real, hi: real, y: real)
    requires lo <= f <= hi && y >= 0.0
    ensures lo * y <= f * y <= hi * y
  {
    assert f * y - lo * y == (f - lo) * y;
    assert hi * y - f * y == (hi - f) * y;
  }
}
