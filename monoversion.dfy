/**
 * The computation in monoversion.py's `main`: from the merge base of two
 * revisions, the Monday that starts the merge base's week, the week's commit
 * count, the commits the start revision is ahead by and the working tree's
 * state, the version line
 *
 *   {year}.{week}.{week_commits}[-{branch_commits}.{start[:11]}[.dirty]]
 *
 * Every git command the script runs is an input: Git holds its answers.
 */
module MonoVersion {
  import opened Calendar
  import opened IsoWeek
  import opened Decimal

  datatype Option<T> = None | Some(value: T)

  /** The command line: the revision expressions `--start` and `--end`. */
  datatype Options = Options(start: string, end: string)

  /** The defaults the argument parser gives the two options. */
  const DefaultOptions: Options := Options("HEAD", "origin/main")

  /** What each git command main() runs answers, as seen by the script:
      `git rev-parse obj` (stripped), `git merge-base a b` (stripped),
      `git show -s --pretty=%ct c` (as an integer), the number of lines of
      `git log --oneline --since=S --until=U` (a log of the checked-out
      commit: no revision is named), the number of lines of
      `git rev-list --ancestry-path p...s`, and whether `git diff --quiet`
      exits with status 0. */
  datatype Git = Git(
    revParse: string -> string,
    mergeBase: (string, string) -> string,
    committerTime: string -> int,
    logCount: (int, int) -> nat,
    ancestryPathCount: (string, string) -> nat,
    diffQuiet: bool)

  /** `datetime.fromtimestamp` raises for a timestamp outside years 1 to
      9999; the script does not catch it. */
  datatype Error = TimestampOutOfRange

  datatype Outcome = Line(text: string) | Fails(error: Error)

  /** The fields of a version line; tail is the part after '-', present only
      when the start commit is ahead of the merge base. */
  datatype Tail = Tail(branchCommits: nat, abbrev: string, dirty: bool)
  datatype Version = Version(year: nat, week: nat, weekCommits: nat, tail: Option<Tail>)

  // ---------------------------------------------------------------------
  // Rendering and reading back a version line

  /** Python's `start[:11]`: the first 11 characters, or all of a shorter
      string. */
  function Abbrev(start: string): (a: string)
    ensures |a| == if |start| < 11 then |start| else 11
    ensures a == start[..|a|]
  {
    if |start| < 11 then start else start[..11]
  }

  const DirtySuffix: string := ".dirty"

  /** The `tail` string: empty without a tail. */
  function TailText(tail: Option<Tail>): string {
    match tail
    case None => ""
    case Some(t) => "-" + TailBody(t)
  }

  /** `{branch_commits}.{abbrev}`, then ".dirty" for a dirty tree. */
  function TailBody(t: Tail): string {
    NatToString(t.branchCommits) + "." + t.abbrev + (if t.dirty then DirtySuffix else "")
  }

  /** The printed line. */
  function Render(v: Version): string
    requires v.week < 100
  {
    BaseText(v) + TailText(v.tail)
  }

  /** The part of s before the first c and the part after it. */
  function Split(s: string, c: char): (r: Option<(string, string)>)
    ensures r.None? <==> c !in s
    ensures r.Some? ==> s == r.value.0 + [c] + r.value.1 && c !in r.value.0
  {
    if s == [] then None
    else if s[0] == c then
      assert s == [] + [c] + s[1..];
      Some(([], s[1..]))
    else
      match Split(s[1..], c)
      case None => None
      case Some(p) =>
        assert s == ([s[0]] + p.0) + [c] + p.1;
        Some(([s[0]] + p.0, p.1))
  }

  /** A non-empty string of digits, read as a number. */
  function Number(s: string): Option<nat> {
    if s != [] && IsDigits(s) then Some(DigitsValue(s)) else None
  }

  /** `{year}.{week}.{week_commits}` with a two-digit week. */
  function ParseBase(s: string): Option<(nat, nat, nat)> {
    match Split(s, '.')
    case None => None
    case Some((y, rest)) =>
      match Split(rest, '.')
      case None => None
      case Some((w, k)) =>
        match (Number(y), Number(w), Number(k))
        case (Some(year), Some(week), Some(count)) =>
          if |w| == 2 then Some((year, week, count)) else None
        case _ => None
  }

  /** `{branch_commits}.{abbrev}` or `{branch_commits}.{abbrev}.dirty`, for an
      abbreviation without '.'. */
  function ParseTail(s: string): Option<Tail> {
    match Split(s, '.')
    case None => None
    case Some((n, rest)) =>
      match Number(n)
      case None => None
      case Some(count) =>
        match Split(rest, '.')
        case None => Some(Tail(count, rest, false))
        case Some((a, suffix)) =>
          if suffix == "dirty" then Some(Tail(count, a, true)) else None
  }

  /** Read a version line back into its fields. */
  function Parse(s: string): Option<Version> {
    match Split(s, '-')
    case None =>
      (match ParseBase(s)
       case None => None
       case Some((y, w, k)) => Some(Version(y, w, k, None)))
    case Some((base, tail)) =>
      match (ParseBase(base), ParseTail(tail))
      case (Some((y, w, k)), Some(t)) => Some(Version(y, w, k, Some(t)))
      case _ => None
  }

  /** The versions Render writes unambiguously: a week of at most two digits
      and an abbreviation without '.' (a commit id never has one). */
  predicate WellFormed(v: Version) {
    v.week < 100 && (v.tail.Some? ==> '.' !in v.tail.value.abbrev)
  }

  /** Split finds the first c: the one after a prefix without c. */
  lemma SplitAt(a: string, b: string, c: char)
    requires c !in a
    ensures Split(a + [c] + b, c) == Some((a, b))
  {
    var r := Split(a + [c] + b, c);
    FirstSeparator(r.value.0, r.value.1, a, b, c);
  }

  /** Two ways of writing a string as prefix, c, suffix with no c in the
      prefix are the same way. */
  lemma FirstSeparator(x: string, y: string, a: string, b: string, c: char)
    requires x + [c] + y == a + [c] + b
    requires c !in x && c !in a
    ensures x == a && y == b
  {
    var s := a + [c] + b;
    assert s[|a|] == c && s[|x|] == c;
    assert x == s[..|a|] == a;
    assert y == s[|a| + 1..] == b;
  }

  lemma DigitsHave(s: string, c: char)
    requires IsDigits(s) && !IsDigit(c)
    ensures c !in s
  {
  }

  lemma NumberOfNatToString(n: nat)
    ensures Number(NatToString(n)) == Some(n)
  {
    NatToStringRoundTrip(n);
  }

  /** The text before the tail: `{year}.{week}.{week_commits}`. */
  function BaseText(v: Version): string
    requires v.week < 100
  {
    NatToString(v.year) + "." + TwoDigits(v.week) + "." + NatToString(v.weekCommits)
  }

  /** The base reads back as its three numbers, and holds no '-'. */
  lemma ParseBaseText(v: Version)
    requires v.week < 100
    ensures '-' !in BaseText(v)
    ensures ParseBase(BaseText(v)) == Some((v.year, v.week, v.weekCommits))
  {
    var y, w, k := NatToString(v.year), TwoDigits(v.week), NatToString(v.weekCommits);
    DigitsHave(y, '-');
    DigitsHave(w, '-');
    DigitsHave(k, '-');
    ParseBaseDigits(y, w, k);
    NumberOfNatToString(v.year);
    NumberOfNatToString(v.weekCommits);
  }

  lemma ParseBaseDigits(y: string, w: string, k: string)
    requires IsDigits(y) && IsDigits(w)
    ensures ParseBase(y + "." + w + "." + k) == match (Number(y), Number(w), Number(k))
            case (Some(year), Some(week), Some(count)) =>
              if |w| == 2 then Some((year, week, count)) else None
            case _ => None
  {
    DigitsHave(y, '.');
    DigitsHave(w, '.');
    assert y + "." + w + "." + k == y + ['.'] + (w + ['.'] + k);
    SplitAt(y, w + ['.'] + k, '.');
    SplitAt(w, k, '.');
  }

  lemma ParseTailParts(n: string, rest: string)
    requires '.' !in n
    ensures ParseTail(n + "." + rest) == match Number(n)
            case None => None
            case Some(count) =>
              match Split(rest, '.')
              case None => Some(Tail(count, rest, false))
              case Some((a, suffix)) => if suffix == "dirty" then Some(Tail(count, a, true)) else None
  {
    assert n + "." + rest == n + ['.'] + rest;
    SplitAt(n, rest, '.');
  }

  /** A tail reads back as itself when its abbreviation has no '.'. */
  lemma ParseTailBody(t: Tail)
    requires '.' !in t.abbrev
    ensures ParseTail(TailBody(t)) == Some(t)
  {
    var n := NatToString(t.branchCommits);
    DigitsHave(n, '.');
    NumberOfNatToString(t.branchCommits);
    if t.dirty {
      ParseDirtyTail(n, t.abbrev);
      assert TailBody(t) == n + "." + (t.abbrev + DirtySuffix);
    } else {
      ParseTailParts(n, t.abbrev);
      assert TailBody(t) == n + "." + t.abbrev;
    }
  }

  lemma ParseDirtyTail(n: string, a: string)
    requires '.' !in n && '.' !in a
    ensures ParseTail(n + "." + (a + DirtySuffix)) == match Number(n)
            case None => None
            case Some(count) => Some(Tail(count, a, true))
  {
    ParseTailParts(n, a + DirtySuffix);
    assert a + DirtySuffix == a + ['.'] + "dirty";
    SplitAt(a, "dirty", '.');
  }

  /** Parse reads back every well-formed version that Render writes. */
  lemma ParseRender(v: Version)
    requires WellFormed(v)
    ensures Parse(Render(v)) == Some(v)
  {
    var base := BaseText(v);
    ParseBaseText(v);
    assert Render(v) == base + TailText(v.tail);
    match v.tail
    case None =>
      assert Render(v) == base;
      assert Split(base, '-') == None;
    case Some(t) =>
      ParseTailBody(t);
      assert Render(v) == base + ['-'] + TailBody(t);
      SplitAt(base, TailBody(t), '-');
  }

  // ---------------------------------------------------------------------
  // main()

  /** The start commit: `git rev-parse` of `--start`. */
  function StartCommit(git: Git, opts: Options): string {
    git.revParse(opts.start)
  }

  /** The merge base of the start and end commits. */
  function MergeBaseOf(git: Git, opts: Options): string {
    git.mergeBase(StartCommit(git, opts), git.revParse(opts.end))
  }

  /** The merge base's committer timestamp. */
  function MergeBaseTime(git: Git, opts: Options): int {
    git.committerTime(MergeBaseOf(git, opts))
  }

  /** The `--since` and `--until` bounds handed to `git log`: the start of the
      Monday-started week that holds ts, and ts itself. */
  function WeekWindow(ts: int): (w: (int, int))
    ensures IsMondayMidnight(w.0)
    ensures w.0 <= w.1 == ts < w.0 + SecondsPerWeek
  {
    MondayOfBounds(ts);
    (MondayOf(ts), ts)
  }

  /** `monday_date.year`: the Gregorian year of the Monday that starts the
      week of a representable timestamp, always one of the years 1 to 9999. */
  function MondayYear(ts: int): (y: nat)
    requires InRange(DayOf(ts))
    ensures y == YearOf(MondayOfDay(DayOf(ts)))
    ensures MinYear <= y <= MaxYear
  {
    MondayOfDayInRange(DayOf(ts));
    InRangeYear(MondayOfDay(DayOf(ts)));
    YearOf(MondayOfDay(DayOf(ts)))
  }

  /** The commits the start commit is ahead by; git is not asked when the
      start commit is the merge base. */
  function BranchCommits(git: Git, start: string, parent: string): nat {
    if parent != start then git.ancestryPathCount(parent, start) else 0
  }

  /** The version fields: a tail only when branchCommits is not 0, holding
      the start commit's first 11 characters and the dirty flag. */
  function VersionOf(year: nat, week: nat, weekCommits: nat, branchCommits: nat, start: string, dirty: bool): Version {
    var tail := if branchCommits != 0 then Some(Tail(branchCommits, Abbrev(start), dirty)) else None;
    Version(year, week, weekCommits, tail)
  }

  /** The fields main() computes once the merge base's date is known to be
      representable: the `%Y` and `%V` of the Monday that starts its week,
      the commits `git log` counts in that week up to the merge base, and the
      tail. */
  function VersionFields(git: Git, opts: Options): (v: Version)
    requires InRange(DayOf(MergeBaseTime(git, opts)))
    ensures v.week < 100
  {
    var start := StartCommit(git, opts);
    var parent := MergeBaseOf(git, opts);
    var ts := MergeBaseTime(git, opts);
    var monday := MondayOfDay(DayOf(ts));
    StrftimeWeekIsIso(monday);
    var window := WeekWindow(ts);
    var weekCommits := git.logCount(window.0, window.1);
    var branchCommits := BranchCommits(git, start, parent);
    var dirty := !git.diffQuiet;
    VersionOf(MondayYear(ts), StrftimeWeek(TimeTuple(monday)), weekCommits, branchCommits, start, dirty)
  }

  /** The line main() prints, or the error it stops with. */
  function VersionLine(git: Git, opts: Options): Outcome {
    if !InRange(DayOf(MergeBaseTime(git, opts))) then Fails(TimestampOutOfRange)
    else Line(Render(VersionFields(git, opts)))
  }

  // ---------------------------------------------------------------------
  // What the printed line says

  /** main() fails exactly when the merge base's timestamp falls outside the
      years 1 to 9999 that `datetime.fromtimestamp` accepts, and prints a line
      otherwise. */
  lemma VersionLineFails(git: Git, opts: Options)
    ensures var year := YearOf(DayOf(MergeBaseTime(git, opts)));
            VersionLine(git, opts).Fails? <==> !(MinYear <= year <= MaxYear)
    ensures VersionLine(git, opts).Fails? ==> VersionLine(git, opts).error == TimestampOutOfRange
  {
    InRangeYear(DayOf(MergeBaseTime(git, opts)));
  }

  /** What the fields are: the Gregorian year of the Monday of the merge
      base's week; that Monday's ISO 8601 week number, in 1 to 53; git's
      commit count from that Monday's midnight to the merge base's
      timestamp; and, when the start commit is ahead of the merge base, that
      distance, the start commit's first 11 characters and the dirty flag. */
  lemma VersionFieldsMeaning(git: Git, opts: Options)
    requires InRange(DayOf(MergeBaseTime(git, opts)))
    ensures var ts := MergeBaseTime(git, opts);
            var monday := MondayOfDay(DayOf(ts));
            var branch := BranchCommits(git, StartCommit(git, opts), MergeBaseOf(git, opts));
            VersionFields(git, opts) == Version(
              MondayYear(ts), IsoWeekNumber(monday), git.logCount(MondayOf(ts), ts),
              if branch == 0 then None else Some(Tail(branch, Abbrev(StartCommit(git, opts)), !git.diffQuiet)))
  {
    StrftimeWeekIsIso(MondayOfDay(DayOf(MergeBaseTime(git, opts))));
  }

  /** The printed text: `{year}.{week}.{week_commits}` with the week as two
      digits, then, only when the start commit is ahead of the merge base,
      `-{branch_commits}.{start[:11]}` and ".dirty" exactly when the working
      tree differs from the index. */
  lemma VersionLineText(git: Git, opts: Options)
    requires InRange(DayOf(MergeBaseTime(git, opts)))
    ensures var ts := MergeBaseTime(git, opts);
            var monday := MondayOfDay(DayOf(ts));
            var branch := BranchCommits(git, StartCommit(git, opts), MergeBaseOf(git, opts));
            var week := IsoWeekNumber(monday);
            var base := NatToString(MondayYear(ts)) + "." + TwoDigits(week) + "." + NatToString(git.logCount(MondayOf(ts), ts));
            VersionLine(git, opts) == Line(
              if branch == 0 then base
              else base + "-" + NatToString(branch) + "." + Abbrev(StartCommit(git, opts)) + (if git.diffQuiet then "" else ".dirty"))
  {
    VersionFieldsMeaning(git, opts);
    RenderText(VersionFields(git, opts));
  }

  lemma RenderText(v: Version)
    requires v.week < 100
    ensures Render(v) == match v.tail
            case None => BaseText(v)
            case Some(t) => BaseText(v) + "-" + NatToString(t.branchCommits) + "." + t.abbrev + (if t.dirty then ".dirty" else "")
  {
    if v.tail.Some? {
      var t := v.tail.value;
      assert TailText(v.tail) == "-" + TailBody(t);
    }
  }

  /** The tail is gated on the commits ahead: there is none when the start
      commit is the merge base, and otherwise there is one exactly when git's
      ancestry-path count is not 0, carrying that count. */
  lemma BranchCommitsGate(git: Git, opts: Options)
    requires InRange(DayOf(MergeBaseTime(git, opts)))
    ensures var parent, start := MergeBaseOf(git, opts), StartCommit(git, opts);
            var tail := VersionFields(git, opts).tail;
            (parent == start ==> tail.None?) &&
            (parent != start ==>
               (tail.Some? <==> git.ancestryPathCount(parent, start) != 0) &&
               (tail.Some? ==> tail.value.branchCommits == git.ancestryPathCount(parent, start)))
  {
  }

  /** The line reads back as the fields VersionFieldsMeaning describes, when
      the start commit's abbreviation has no '.'. */
  lemma VersionLineDecodes(git: Git, opts: Options)
    requires '.' !in Abbrev(StartCommit(git, opts))
    requires VersionLine(git, opts).Line?
    ensures var ts := MergeBaseTime(git, opts);
            var monday := MondayOfDay(DayOf(ts));
            var branch := BranchCommits(git, StartCommit(git, opts), MergeBaseOf(git, opts));
            Parse(VersionLine(git, opts).text) == Some(Version(
              MondayYear(ts), IsoWeekNumber(monday), git.logCount(MondayOf(ts), ts),
              if branch == 0 then None else Some(Tail(branch, Abbrev(StartCommit(git, opts)), !git.diffQuiet))))
  {
    VersionFieldsMeaning(git, opts);
    ParseRender(VersionFields(git, opts));
  }

  /** The year printed is the Gregorian year of the Monday, not its ISO
      week-year: the two differ only for a Monday on December 29, 30 or 31,
      whose line then shows the old year with week 01. */
  lemma VersionLineYear(git: Git, opts: Options)
    requires InRange(DayOf(MergeBaseTime(git, opts)))
    ensures var monday := MondayOfDay(DayOf(MergeBaseTime(git, opts)));
            var v := VersionFields(git, opts);
            v.year == YearOf(monday) && 1 <= v.week <= 53 &&
            (v.year != IsoWeekYear(monday) ==>
               v.year + 1 == IsoWeekYear(monday) && v.week == 1 &&
               YearStart(v.year + 1) - 3 <= monday)
  {
    var monday := MondayOfDay(DayOf(MergeBaseTime(git, opts)));
    var v := VersionFields(git, opts);
    assert v.year == YearOf(monday) && v.week == IsoWeekNumber(monday) by {
      VersionFieldsMeaning(git, opts);
    }
    MondayYearWeek(monday, v.year, v.week);
  }

  /** A Monday's Gregorian year and ISO week number, as VersionLineYear
      speaks of them. */
  lemma MondayYearWeek(monday: int, year: int, week: int)
    requires Weekday(monday) == 0
    requires year == YearOf(monday) && week == IsoWeekNumber(monday)
    ensures 1 <= week <= 53
    ensures year != IsoWeekYear(monday) ==>
              year + 1 == IsoWeekYear(monday) && week == 1 && YearStart(year + 1) - 3 <= monday
  {
    MondayWeekYear(monday);
  }

  /** At the merge base the line has no tail, and neither the working tree
      nor the ancestry-path count can change it. */
  lemma VersionLineAtMergeBase(git: Git, opts: Options, quiet: bool, count: (string, string) -> nat)
    requires MergeBaseOf(git, opts) == StartCommit(git, opts)
    ensures VersionLine(git.(diffQuiet := quiet, ancestryPathCount := count), opts) == VersionLine(git, opts)
    ensures VersionLine(git, opts).Line? ==> '-' !in VersionLine(git, opts).text
  {
    if VersionLine(git, opts).Line? {
      var v := VersionFields(git, opts);
      assert v.tail.None?;
      assert Render(v) == BaseText(v);
      ParseBaseText(v);
    }
  }

  /** A dirty tail prints as the clean one followed by ".dirty". */
  lemma RenderDirty(v: Version, t: Tail)
    requires v.week < 100
    ensures Render(v.(tail := Some(t.(dirty := true)))) == Render(v.(tail := Some(t.(dirty := false)))) + DirtySuffix
  {
  }

  /** The dirty flag shows only in a tail: with no commits ahead of the merge
      base a dirty tree prints the same line as a clean one; with commits
      ahead the dirty line is the clean line followed by ".dirty". */
  lemma VersionLineDirty(git: Git, opts: Options)
    ensures var clean := VersionLine(git.(diffQuiet := true), opts);
            var dirty := VersionLine(git.(diffQuiet := false), opts);
            clean.Line? == dirty.Line? &&
            (clean.Line? ==>
               if BranchCommits(git, StartCommit(git, opts), MergeBaseOf(git, opts)) == 0
               then dirty == clean
               else dirty.text == clean.text + DirtySuffix)
  {
    var gc, gd := git.(diffQuiet := true), git.(diffQuiet := false);
    if InRange(DayOf(MergeBaseTime(git, opts))) {
      var c, d := VersionFields(gc, opts), VersionFields(gd, opts);
      if c.tail.Some? {
        assert d == c.(tail := Some(c.tail.value.(dirty := true)));
        assert c == c.(tail := Some(c.tail.value.(dirty := false)));
        RenderDirty(c, c.tail.value);
      }
    }
  }

  // ---------------------------------------------------------------------
  // Worked examples

  lemma YearStarts()
    ensures YearStart(2024) == 19723 && YearStart(2025) == 20089 && YearStart(2026) == 20454
  {
    YearStartClosedForm(2024);
    YearStartStep(2024);
    YearStartStep(2025);
  }

  /** Wednesday 2024-01-31 15:00 UTC, in ISO week 2024-W05. */
  const Week05Time: int := 1706713200

  /** Its week starts on Monday 2024-01-29, day 19751, in ISO week 5 of 2024. */
  lemma Week05Calendar()
    ensures InRange(DayOf(Week05Time))
    ensures MondayOfDay(DayOf(Week05Time)) == 19751
    ensures YearOf(19751) == 2024 && IsoWeekNumber(19751) == 5
  {
    YearStarts();
    assert DayOf(Week05Time) == 19753;
    assert MondayOfDay(19753) == 19751;
    assert YearOf(19751) == 2024 by {
      YearOfUnique(19751, 2024);
    }
    assert IsoWeekYear(19751) == 2024 by {
      assert ThursdayOf(19751) == 19754;
      YearOfUnique(19754, 2024);
    }
  }

  /** Wednesday 2025-01-01 00:00 UTC: its week starts on Monday 2024-12-30,
      day 20087, which is in ISO week 1 of 2025. */
  const NewYear2025Time: int := 1735689600

  lemma NewYear2025Calendar()
    ensures InRange(DayOf(NewYear2025Time))
    ensures MondayOfDay(DayOf(NewYear2025Time)) == 20087
    ensures YearOf(20087) == 2024 && IsoWeekYear(20087) == 2025 && IsoWeekNumber(20087) == 1
  {
    YearStarts();
    assert DayOf(NewYear2025Time) == 20089;
    YearOfUnique(20087, 2024);
    assert ThursdayOf(20087) == 20090;
    YearOfUnique(20090, 2025);
  }

  lemma Year2024Text()
    ensures NatToString(2024) == "2024"
  {
    assert NatToString(2) == "2";
    assert NatToString(20) == "20";
    assert NatToString(202) == "202";
  }

  lemma BaseTexts()
    ensures BaseText(Version(2024, 5, 3, None)) == "2024.05.3"
    ensures BaseText(Version(2024, 1, 7, None)) == "2024.01.7"
  {
    Year2024Text();
    assert TwoDigits(5) == "05" && TwoDigits(1) == "01";
    assert NatToString(3) == "3" && NatToString(7) == "7";
  }

  lemma RenderAhead()
    ensures Render(Version(2024, 5, 3, Some(Tail(4, "abcdef01234", false)))) == "2024.05.3-4.abcdef01234"
  {
    BaseTexts();
    var v := Version(2024, 5, 3, Some(Tail(4, "abcdef01234", false)));
    assert BaseText(v) == BaseText(Version(2024, 5, 3, None));
    assert NatToString(4) == "4";
    assert TailText(v.tail) == "-4.abcdef01234";
  }

  lemma RenderNoTail()
    ensures Render(Version(2024, 5, 3, None)) == "2024.05.3"
    ensures Render(Version(2024, 1, 7, None)) == "2024.01.7"
  {
    BaseTexts();
  }

  lemma AbbrevExample()
    ensures Abbrev("abcdef0123456789") == "abcdef01234"
  {
    var s := "abcdef0123456789";
    assert |s| == 16;
    assert s[..11] == "abcdef01234";
  }

  /** A merge base in week 2024-W05 with 3 commits that week, a start commit
      4 commits ahead and a clean tree. */
  lemma ExampleAhead()
    ensures VersionLine(Git(
              s => if s == "HEAD" then "abcdef0123456789" else "0123456789abcdef",
              (a, b) => "fedcba9876543210",
              c => Week05Time,
              (since, until) => 3,
              (p, s) => 4,
              true), DefaultOptions) == Line("2024.05.3-4.abcdef01234")
  {
    var git := Git(
      s => if s == "HEAD" then "abcdef0123456789" else "0123456789abcdef",
      (a, b) => "fedcba9876543210",
      c => Week05Time,
      (since, until) => 3,
      (p, s) => 4,
      true);
    assert StartCommit(git, DefaultOptions) == "abcdef0123456789";
    assert MergeBaseOf(git, DefaultOptions) == "fedcba9876543210";
    assert BranchCommits(git, "abcdef0123456789", "fedcba9876543210") == 4;
    AbbrevExample();
    Week05Calendar();
    VersionFieldsMeaning(git, DefaultOptions);
    assert VersionFields(git, DefaultOptions) == Version(2024, 5, 3, Some(Tail(4, "abcdef01234", false)));
    RenderAhead();
  }

  /** Start and end at the same commit: no tail, dirty or not. */
  lemma ExampleAtMergeBase()
    ensures VersionLine(Git(
              s => "abcdef0123456789",
              (a, b) => a,
              c => Week05Time,
              (since, until) => 3,
              (p, s) => 4,
              false), DefaultOptions) == Line("2024.05.3")
  {
    var git := Git(
      s => "abcdef0123456789",
      (a, b) => a,
      c => Week05Time,
      (since, until) => 3,
      (p, s) => 4,
      false);
    Week05Calendar();
    VersionFieldsMeaning(git, DefaultOptions);
    RenderNoTail();
  }

  /** A merge base on New Year's Day 2025, whose week starts on 2024-12-30:
      the line shows 2024 with week 01. */
  lemma ExampleYearEnd()
    ensures VersionLine(Git(
              s => "abcdef0123456789",
              (a, b) => a,
              c => NewYear2025Time,
              (since, until) => 7,
              (p, s) => 0,
              true), DefaultOptions) == Line("2024.01.7")
  {
    var git := Git(
      s => "abcdef0123456789",
      (a, b) => a,
      c => NewYear2025Time,
      (since, until) => 7,
      (p, s) => 0,
      true);
    NewYear2025Calendar();
    VersionFieldsMeaning(git, DefaultOptions);
    RenderNoTail();
  }
}
