# Scary Life Numbers: the life-statistics computation

A Dafny model of the computation behind the "Scary Life Numbers" calculator.
A static table gives the average life expectancy of ten countries, with 80 years
for any other country. From it the calculator derives how many years a person has
left, never less than zero. It then reports six metrics: years left, summers left,
Christmases left, visits with parents, total work hours left and total sleep years.

- `life_time_calculator.dfy` (module `LifeTimeCalculator`) holds the table,
  the lookup with its default, `TimeLeft`, the work horizon `WorkYears`, the sleep
  proportion `SleepYears` and `CalculateMetrics`, which returns the `LifeStats`
  datatype with the six metrics as named fields.
- `life_time_properties.dfy` (module `LifeTimeProperties`) proves what the
  computation promises across calls and input ranges. This includes the bounds that
  hold within the ranges of the calculator's input sliders.

The source is pure: straight-line expressions over one read-only table. So the
model is functions and lemmas only. All inputs are integers, as the integer
sliders supply them. Python integers are unbounded, so Dafny's `int` is exact.
The one division, `sleep_hours / 24`, is modelled as an exact `real`.

## Model

| member | source | states |
|---|---|---|
| LifeTimeCalculator.LifeExpectancy | life_time_calculator.py:6-12 | a listed country gets its table value, any other string gets 80; every answer lies between 70 and 84 |
| LifeTimeCalculator.TimeLeft | life_time_calculator.py:11-14 | years left are the least non-negative count that brings the age up to the expectancy: never negative, zero exactly when age ≥ expectancy, otherwise expectancy − age |
| LifeTimeCalculator.WorkYears | life_time_calculator.py:28 | work years are at most the years left and at most 65 − age, equal one of the two, and are negative exactly when age > 65 (no floor at zero) |
| LifeTimeCalculator.SleepYears | life_time_calculator.py:30 | sleep years are to the years left as the nightly sleep hours are to 24, computed as an exact real |
| LifeTimeCalculator.CalculateMetrics | life_time_calculator.py:16-39 | the six metrics: years left from the user's age; summers and Christmases equal to it; parent's years left (same country) times visits per year; work years × weekly hours × 50; the sleep proportion of the years left |
| LifeTimeProperties.TableContents | life_time_calculator.py:6-9 | the table's keys are exactly the ten countries, with USA 77, UK 81, Germany 80, Spain 83, Poland 78, France 82, Japan 84, India 70, China 76, Brazil 75 |
| LifeTimeProperties.UnlistedCountryFallsBack | life_time_calculator.py:12 | for every profile, an unlisted country gives exactly the metrics of a listed country whose expectancy is the default 80 (Germany) |
| LifeTimeProperties.TimeLeftAntitone | life_time_calculator.py:13 | an older age never has more years left, and the difference is at most the age difference |
| LifeTimeProperties.KidAgeIrrelevant | life_time_calculator.py:16-39 | two profiles that differ only in the kid's age give equal metrics |
| LifeTimeProperties.VisitsWithParentsBounds | life_time_calculator.py:24-25 | with non-negative visits per year, visits with parents are ≥ 0, and zero exactly when there are no visits or the parent's age reaches the expectancy |
| LifeTimeProperties.VisitsAntitoneInParentAge | life_time_calculator.py:24-25 | an older parent leaves no more visits than a younger one at the same frequency |
| LifeTimeProperties.WorkHoursBounds | life_time_calculator.py:28-29 | for non-negative weekly hours, work hours left are at most years left × hours × 50 and at most (65 − age) × hours × 50; with positive weekly hours they are negative exactly when age > 65 |
| LifeTimeProperties.SleepYearsWithin | life_time_calculator.py:30 | with 0 to 24 hours of sleep, sleep years lie between 0 and the years left; 24 hours give all of them, 0 hours none |
| LifeTimeProperties.SleepYearsBounds | life_time_calculator.py:30 | the sleep metric of a whole profile lies between 0 and its years left, for 0 to 24 hours of sleep |
| LifeTimeProperties.WorkedExamples | life_time_calculator.py:16-39 | age 30, USA, 40 h/week, 8 h sleep, parent 65, 5 visits give 47, 47, 47, 60 visits, 70000 work hours and 47/3 sleep years; an unlisted country gives 50, 50, 50, 75, 70000 and 50/3 |
| LifeTimeProperties.SliderRangeBounds | life_time_calculator.py:45-51 | within the sliders' ranges and a listed country: years left ≤ 66, visits ≤ 44 × 52, work hours between −35 and 47 years of 80-hour weeks, sleep years between a sixth and a half of the years left |
| LifeTimeProperties.VisitsWithinSliders | life_time_calculator.py:24-25 | a parent aged 40 to 100 in a listed country, seen 0 to 52 times a year (the slider ranges), gives between 0 and 44 × 52 visits |
| LifeTimeProperties.WorkHoursWithinSliders | life_time_calculator.py:28-29 | for ages 18 to 100 and 0 to 80 hours a week (the slider ranges), work years × hours × 50 lies between −35 and 47 years of 80-hour weeks |
| LifeTimeProperties.SleepYearsBetween | life_time_calculator.py:30 | 4 to 12 hours of sleep a night (the slider range) take between a sixth and a half of the years left |

## Left out

- `main` (life_time_calculator.py:41-72): the web-UI wiring (sliders, country selector, writing the results) is presentation. Its slider ranges appear only as preconditions of the range lemmas (`WithinSliderRanges` and the bounds of `VisitsWithinSliders`, `WorkHoursWithinSliders` and `SleepYearsBetween`).
- The pie chart (life_time_calculator.py:62-69): presentation only. As written it refers to `years_left`, a name that is not defined inside `main`. It would also divide by zero when years left is 0.
- Floating-point rounding of `sleep_hours / 24`: sleep years are an exact `real`, not an IEEE double.
- Non-integer inputs: the Python function would also accept floats, but the sliders only supply integers, and only integer inputs are modelled.
- The label strings and the insertion order of the returned dictionary: the six values are the named fields of `LifeStats`.
- Determinism (two identical calls give identical results) holds because every member is a Dafny function; no separate lemma states it.
