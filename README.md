# monoversion, modelled in Dafny

monoversion is a script that prints a calendar-based version line for a git
checkout:

    {year}.{week}.{week_commits}[-{branch_commits}.{start[:11]}[.dirty]]

It resolves `--start` (default `HEAD`) and `--end` (default `origin/main`),
takes their merge base and that commit's committer timestamp, and finds the
Monday 00:00 UTC that starts the timestamp's week. From that Monday it takes
the Gregorian year and the `strftime('%V')` week number. `git log` counts the
commits from the Monday up to the merge base. When the start commit is not
the merge base, `git rev-list --ancestry-path` counts how far ahead it is.
When that count is not 0, a tail carries it, together with the first 11
characters of the start commit and a `.dirty` marker for a modified working
tree.

The model has four modules:

- `Calendar` (calendar.dfy): the proleptic Gregorian calendar in UTC on
  integer day numbers. It covers the weekday, years and their starts, the
  range of years 1 to 9999 that Python's `datetime` accepts,
  `monday_date` (`MondayOf`) and the `struct tm` fields that `strftime` reads.
- `IsoWeek` (isoweek.dfy): ISO 8601 week numbers, defined by the rule that a
  week belongs to the year of its Thursday (ISO 8601:2004, section 4.1.4).
  It also holds the GNU C library's `%V` algorithm, which Python's
  `strftime` reaches, and a proof that the two agree on every date.
- `Decimal` (decimal.dfy): `str(n)` for a count and the two-digit,
  zero-padded `%V` field, with their decimal values.
- `MonoVersion` (monoversion.dfy): `main`'s computation, with a parser for
  the line it prints (the partner that proves the line carries its fields),
  the properties of the line, and three worked examples.

Every git command is an input. The `Git` datatype holds what each command
answers:

- `rev-parse`
- `merge-base`
- `show -s --pretty=%ct`, as an integer
- the line counts of `log` and of `rev-list`
- whether `diff --quiet` succeeds

The script has no loops and no mutable objects: it is one straight-line
function. The model is therefore made of functions and lemmas, with the two
conditionally reassigned locals (`branch_commits`, `suffix`) written as
if-expressions.

In two places the code does something other than what a reader might
assume. The model follows the code:

- The year printed is `monday_date.year`, the Gregorian year of the Monday,
  not the ISO week-year that `year.%V` suggests. A Monday on December 29,
  30 or 31 that starts ISO week 1 of the next year prints the old year with
  week `01`. For example,
  a merge base on 2025-01-01 gives `2024.01.…`. `VersionLineYear` and
  `ExampleYearEnd` state this.
- `git log --since --until` names no revision. The comment at
  monoversion.py:38 speaks of counting from the merge base, but the command
  counts commits reachable from the checked-out commit. `Git.logCount`
  therefore depends on the window alone.

## Model

| member | source | states |
|---|---|---|
| Calendar.DayOf | monoversion.py:28 | the date `fromtimestamp` gives a timestamp: by DayOfBounds the timestamp lies in that day's 86400 seconds, negative timestamps included |
| Calendar.DayOfBounds | monoversion.py:28 | a timestamp lies between its day's midnight and the next midnight |
| Calendar.Weekday | monoversion.py:34 | `weekday()` is in 0..6, and subtracting it from a day lands on a Monday (a day 4 after a multiple of 7, since day 0 was a Thursday) |
| Calendar.YearStartClosedForm | monoversion.py:28 | January 1 of every year falls 365 days per year plus one per leap year (4/100/400 rule) from 1970-01-01 |
| Calendar.YearOf | monoversion.py:28 | the year `fromtimestamp` assigns to a day is the one whose January 1 is on or before it and whose successor's is after it |
| Calendar.YearOfUnique | monoversion.py:28 | no other year contains the day |
| Calendar.RangeEnds | monoversion.py:28 | day numbers -719162 and 2932896 are 0001-01-01 and 9999-12-31 |
| Calendar.InRangeYear | monoversion.py:28 | a day is representable by `datetime` exactly when its year is in 1..9999 |
| Calendar.MondayOfDay | monoversion.py:34 | the date minus `weekday()` days: by MondayOfDayInRange no later than the date and still representable |
| Calendar.MondayOf | monoversion.py:28-36 | `monday_date` as a timestamp: by MondayOfBounds and MondayOfUnique the one Monday midnight whose week holds the timestamp |
| Calendar.MondayOfBounds | monoversion.py:28-36 | `monday_date` is a Monday at midnight UTC, no later than the timestamp, with the timestamp inside the seven days it starts |
| Calendar.MondayOfUnique | monoversion.py:34-36 | `monday_date` is the only Monday midnight whose week holds the timestamp (both directions) |
| Calendar.MondayOfMondayMidnight | monoversion.py:30-36 | a timestamp that is Monday 00:00:00 UTC is its own `monday_date`: no step back to the previous week |
| Calendar.MondayOfIdempotent | monoversion.py:34-36 | taking `monday_date` of a `monday_date` changes nothing |
| Calendar.MondayOfSameWeek | monoversion.py:34-36 | every timestamp in the week that a Monday starts has that Monday |
| Calendar.MinDayIsMonday | monoversion.py:32-34 | 0001-01-01, the first representable date, is a Monday |
| Calendar.MondayOfDayInRange | monoversion.py:30-36 | subtracting `weekday()` days from a representable date gives a representable date no later than it |
| Calendar.TimeTuple | monoversion.py:72 | the `struct tm` of a day: day of year in range, Sunday-based weekday, and the day equals its year's January 1 plus the day of year |
| IsoWeek.IsoWeekNumber | monoversion.py:72 | every date's ISO week number is in 1..53 |
| IsoWeek.IsoWeekFromWeekOne | monoversion.py:72 | a date is in ISO week-year z exactly when it lies between the Mondays of week 1 of z and of z+1, and its week number counts weeks from the first |
| IsoWeek.JanuaryFourthInWeekOne | monoversion.py:72 | January 4 is always in week 1 of its own year |
| IsoWeek.WeekOneHoldsFirstThursday | monoversion.py:72 | week 1 is exactly the week whose Thursday is among the first seven days of the year |
| IsoWeek.IsoWeekNext | monoversion.py:72 | a week later is the next week number of the same week-year, or week 1 of the next week-year |
| IsoWeek.MondayWeekYear | monoversion.py:72 | a Monday's ISO week-year is its Gregorian year or the next. It is the next exactly for a Monday at most 3 days before January 1, and that Monday starts week 1 |
| IsoWeek.IsoWeekDays | monoversion.py:72 | the GNU C library's day count behind `%V`: by IsoWeekDaysAt the distance from the Monday of week 1 of the year to the day |
| IsoWeek.StrftimeWeek | monoversion.py:72 | `strftime('%V')` on a `struct tm`: by StrftimeWeekIsIso the ISO 8601 week number of the day |
| IsoWeek.IsoWeekDaysAt | monoversion.py:72 | the `%V` day count from a year's January 1 is the distance from that year's week-1 Monday, for every day and year |
| IsoWeek.StrftimeWeekFromWeekOnes | monoversion.py:72 | `strftime('%V')` counts weeks from week 1 of the previous, the same or the next year, according to where the date lies |
| IsoWeek.StrftimeWeekIsIso | monoversion.py:72 | `strftime('%V')` equals the ISO 8601 week number on every date |
| Decimal.NatToString | monoversion.py:72 | `str(n)` is a non-empty string of digits with no leading zero unless n is 0 |
| Decimal.NatToStringRoundTrip | monoversion.py:72 | the digits of `str(n)` denote n |
| Decimal.TwoDigits | monoversion.py:72 | the `%V` field is exactly two digits and denotes the week number |
| MonoVersion.Abbrev | monoversion.py:70 | `start[:11]` is the first min(11, length) characters of the start commit |
| MonoVersion.BaseText | monoversion.py:72 | `{year}.{week}.{week_commits}`: by ParseBaseText it holds no '-' and reads back as its three numbers |
| MonoVersion.TailBody | monoversion.py:70 | `{branch_commits}.{start[:11]}{suffix}`: by ParseTailBody it reads back as its count, abbreviation and dirty flag |
| MonoVersion.TailText | monoversion.py:64-70 | the tail, `-` then the tail body, or nothing: by RenderDirty a dirty tail is the clean one followed by `.dirty` |
| MonoVersion.Render | monoversion.py:70-72 | the printed line: by ParseRender it reads back as the fields it was printed from |
| MonoVersion.ParseBaseText | monoversion.py:72 | `{year}.{week}.{week_commits}` holds no '-' and reads back as its three numbers |
| MonoVersion.ParseTailBody | monoversion.py:70 | `{branch_commits}.{start[:11]}{suffix}` reads back as its count, abbreviation and dirty flag |
| MonoVersion.ParseRender | monoversion.py:70-72 | every line whose abbreviation has no '.' reads back as the fields it was printed from |
| MonoVersion.WeekWindow | monoversion.py:45-46 | `--since` is a Monday midnight, `--since` <= `--until`, `--until` is the merge base's timestamp, inside the week `--since` starts |
| MonoVersion.MondayYear | monoversion.py:72 | `monday_date.year` is the Gregorian year of the Monday and lies in 1..9999 |
| MonoVersion.VersionFields | monoversion.py:16-72 | the week field is below 100, so it fits two digits |
| MonoVersion.VersionLine | monoversion.py:16-72 | all of `main`: by VersionLineFails an error exactly outside the years 1 to 9999, and by VersionLineText the exact text otherwise |
| MonoVersion.VersionLineFails | monoversion.py:23-28 | `main` stops with `TimestampOutOfRange` exactly when the Gregorian year of the merge base's timestamp is outside 1..9999, and prints a line otherwise |
| MonoVersion.VersionFieldsMeaning | monoversion.py:16-72 | the fields are the Monday's year, its ISO week number, git's count from that Monday's midnight to the merge base's timestamp, and a tail exactly when the start commit is ahead |
| MonoVersion.VersionLineText | monoversion.py:55-72 | the printed text is the base, then `-{branch_commits}.{start[:11]}` only when branch_commits is not 0, then `.dirty` exactly when `git diff --quiet` fails |
| MonoVersion.BranchCommits | monoversion.py:55-61 | `branch_commits`: by BranchCommitsGate it decides the tail |
| MonoVersion.BranchCommitsGate | monoversion.py:55-70 | no tail when the start commit is the merge base. Otherwise a tail exactly when git's ancestry-path count is not 0, and the tail carries that count |
| MonoVersion.VersionLineDecodes | monoversion.py:70-72 | the printed line reads back as the Monday's year, ISO week, week commit count and tail |
| MonoVersion.VersionLineYear | monoversion.py:72 | the year is the Gregorian year of the Monday and the week is in 1..53. The year differs from the ISO week-year only for a Monday on December 29–31, with week 01 and the old year |
| MonoVersion.VersionLineAtMergeBase | monoversion.py:53-61 | with the start at the merge base the line has no '-', and neither the working tree nor the ancestry-path count changes it |
| MonoVersion.RenderDirty | monoversion.py:64-70 | a dirty tail prints as the clean one followed by `.dirty` |
| MonoVersion.VersionLineDirty | monoversion.py:63-70 | a dirty tree changes nothing without a tail, and appends `.dirty` with one |
| MonoVersion.ExampleAhead | monoversion.py:16-72 | a merge base on Wednesday 2024-01-31 15:00 UTC, 3 commits that week, 4 ahead on a clean tree, start `abcdef0123456789`: `2024.05.3-4.abcdef01234` |
| MonoVersion.ExampleAtMergeBase | monoversion.py:53-72 | start at the merge base in that week, dirty tree: `2024.05.3` |
| MonoVersion.ExampleYearEnd | monoversion.py:72 | a merge base on 2025-01-01 00:00 UTC, whose week starts on Monday 2024-12-30: `2024.01.7` |

## Left out

- The git commands themselves: `rev-parse`, `merge-base`, `show`, `log`, `rev-list` and `diff` (monoversion.py:13, 22-25, 39-51, 57-61, 66). Their answers are fields of `Git`. What git counts, and how it reads a bare number as a `--since`/`--until` date, is git's behaviour, not the script's.
- A failing git command raising `CalledProcessError` (other than the `diff --quiet` check, which is the dirty flag). The `Git` answers are total functions, so the model has no such failure.
- A committer timestamp that `int()` cannot parse. The model takes the timestamp as an integer.
- argparse and `print` (monoversion.py:7-9, 17, 72). `Options` holds the two option values and `DefaultOptions` their defaults; the model returns the line instead of printing it.
- Time zones: only UTC is modelled. Platform limits of `fromtimestamp` narrower than years 1 to 9999 (such as a C `time_t` range) and the exact Python exception type are left out. The model has one error, `TimestampOutOfRange`.
- `monday_date.timestamp()` returns a float that `int()` truncates. The model uses the exact integer, which the float equals for every representable date.
- `strftime('%V')` is modelled as the GNU C library computes it. Other C libraries are not modelled.
- Parse: a line whose start-commit abbreviation contains '.' is not read back unambiguously, so the round-trip lemmas require none. Commit ids are hexadecimal.
