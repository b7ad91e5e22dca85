/** The leap-year library: the proleptic Gregorian rule, the result line, the
    searches for the next and the previous leap year, and the conversion of a
    list of command-line strings to years. */
module LeapYear {
  import opened Common
  import PyText

  /** The proleptic Gregorian rule: divisible by 4 and not by 100, or divisible
      by 400.  Python's `%` by a positive divisor never yields a negative
      remainder, and neither does Dafny's, so the rule reads the same for
      negative years. */
  predicate IsLeapYear(year: int) {
    (year % 4 == 0 && year % 100 != 0) || year % 400 == 0
  }

  /** The rule repeats every 400 years. */
  lemma LeapPeriod400(year: int)
    ensures IsLeapYear(year + 400) == IsLeapYear(year)
  {
    assert (year + 400) % 4 == year % 4;
    assert (year + 400) % 100 == year % 100;
    assert (year + 400) % 400 == year % 400;
  }

  /** A multiple of 400 is a multiple of 100. */
  lemma HundredDividesFourHundreds(year: int)
    ensures year % 400 == 0 ==> year % 100 == 0
  {
    assert year == 100 * (4 * (year / 400)) + year % 400;
  }

  /** A multiple of 100 is a multiple of 4. */
  lemma FourDividesHundreds(year: int)
    ensures year % 100 == 0 ==> year % 4 == 0
  {
    assert year == 4 * (25 * (year / 100)) + year % 100;
  }

  /** A year that is not a multiple of four is not leap. */
  lemma NotMultipleOf4NotLeap(year: int)
    requires year % 4 != 0
    ensures !IsLeapYear(year)
  {
    assert year == 4 * (100 * (year / 400)) + year % 400;
  }

  /** No year strictly between two consecutive multiples of four is leap. */
  lemma BetweenMultiplesNotLeap(c: int, year: int)
    requires c % 4 == 0 && c < year < c + 4
    ensures !IsLeapYear(year)
  {
    assert year % 4 == year - c;
    NotMultipleOf4NotLeap(year);
  }

  /** The fixed cases the tests check. */
  lemma LeapYearExamples()
    ensures IsLeapYear(2024) && IsLeapYear(2000)
    ensures !IsLeapYear(1900) && !IsLeapYear(2023)
  {
  }

  // ----- The result line -----

  const LeapWord := "високосный"
  const CommonWord := "невисокосный"
  const YearSuffix := " год"

  /** What follows the year in the result line. */
  function ResultTail(isLeap: bool): string {
    ": " + (if isLeap then LeapWord else CommonWord) + YearSuffix
  }

  /** `"<year>: високосный год"` or `"<year>: невисокосный год"`. */
  function FormatResult(year: int): (line: string)
    ensures |line| > |PyText.ShowInt(year)| && line[..|PyText.ShowInt(year)|] == PyText.ShowInt(year)
  {
    PyText.ShowInt(year) + ResultTail(IsLeapYear(year))
  }

  /** The position of the first colon of `s`, if any. */
  function ColonIndex(s: string): (r: Option<nat>)
    ensures r.Some? ==> r.value < |s| && s[r.value] == ':' && forall i :: 0 <= i < r.value ==> s[i] != ':'
    ensures r.None? ==> forall i :: 0 <= i < |s| ==> s[i] != ':'
  {
    if |s| == 0 then None
    else if s[0] == ':' then Some(0)
    else match ColonIndex(s[1..])
      case None => None
      case Some(k) => Some(k + 1)
  }

  /** Reads a result line back: the year before the first colon and whether the
      line says the year is leap. */
  function ReadResult(line: string): Option<(int, bool)> {
    match ColonIndex(line)
    case None => None
    case Some(k) =>
      match PyText.ParseInt(line[..k])
      case None => None
      case Some(year) =>
        var rest := line[k..];
        if rest == ResultTail(true) then Some((year, true))
        else if rest == ResultTail(false) then Some((year, false))
        else None
  }

  /** The two tails differ ("високосный" against "невисокосный"). */
  lemma ResultTailsDiffer()
    ensures ResultTail(true) != ResultTail(false)
  {
    assert ResultTail(true)[2] != ResultTail(false)[2];
  }

  /** The result line names the year and says "високосный" exactly when the
      year is leap, "невисокосный" otherwise. */
  lemma ReadFormatResult(year: int)
    ensures ReadResult(FormatResult(year)) == Some((year, IsLeapYear(year)))
  {
    var shown := PyText.ShowInt(year);
    var tail := ResultTail(IsLeapYear(year));
    var line := shown + tail;
    assert line == FormatResult(year);
    assert tail[0] == ':';
    forall i | 0 <= i < |shown|
      ensures line[i] != ':'
    {
      assert line[i] == shown[i];
    }
    ColonIndexAt(line, |shown|);
    assert line[..|shown|] == shown && line[|shown|..] == tail;
    PyText.ParseShowInt(year);
    ResultTailsDiffer();
  }

  lemma {:induction false} ColonIndexAt(s: string, k: nat)
    requires k < |s| && s[k] == ':' && forall i :: 0 <= i < k ==> s[i] != ':'
    ensures ColonIndex(s) == Some(k)
  {
    if k > 0 {
      ColonIndexAt(s[1..], k - 1);
    }
  }

  // ----- The next leap year -----

  /** The least multiple of four greater than `year`. */
  function NextMultipleOf4(year: int): (c: int)
    ensures year < c <= year + 4 && c % 4 == 0
    ensures forall k :: year < k < c ==> k % 4 != 0
  {
    year + 4 - year % 4
  }

  /** The next leap year after `year`, in closed form: the next multiple of
      four, or the one after it when that multiple is a century year not
      divisible by 400. */
  function NextLeap(year: int): int {
    var c := NextMultipleOf4(year);
    if IsLeapYear(c) then c else c + 4
  }

  /** Four years after a century year that is not leap comes a leap year. */
  lemma LeapAfterCentury(c: int)
    requires c % 4 == 0 && !IsLeapYear(c)
    ensures IsLeapYear(c + 4)
  {
    assert c % 100 == 0;
    assert (c + 4) % 100 == 4 && (c + 4) % 4 == 0;
  }

  /** `NextLeap(year)` is the least leap year greater than `year`, and at most
      eight years later (1896 is followed by 1904). */
  lemma NextLeapIsLeast(year: int)
    ensures year < NextLeap(year) <= year + 8 && IsLeapYear(NextLeap(year))
    ensures forall k :: year < k < NextLeap(year) ==> !IsLeapYear(k)
  {
    var c := NextMultipleOf4(year);
    if IsLeapYear(c) {
      forall k | year < k < c
        ensures !IsLeapYear(k)
      {
        NotMultipleOf4NotLeap(k);
      }
    } else {
      LeapAfterCentury(c);
      forall k | year < k < c + 4
        ensures !IsLeapYear(k)
      {
        if k < c {
          NotMultipleOf4NotLeap(k);
        } else if k > c {
          BetweenMultiplesNotLeap(c, k);
        }
      }
    }
  }

  /** The fixed cases the tests check, and the eight-year gap after 1896. */
  lemma NextLeapExamples()
    ensures NextLeap(2023) == 2024 && NextLeap(2000) == 2004 && NextLeap(2024) == 2028
    ensures NextLeap(1896) == 1904
  {
  }

  /** `next_leap_year`: steps one year at a time from `year + 1` until the rule holds. */
  method NextLeapYear(year: int) returns (r: int)
    ensures year < r && IsLeapYear(r)
    ensures forall k :: year < k < r ==> !IsLeapYear(k)
    ensures 1 <= r - year <= 8
    ensures r == NextLeap(year)
  {
    NextLeapIsLeast(year);
    r := year + 1;
    while !IsLeapYear(r)
      invariant year < r <= NextLeap(year)
      invariant forall k :: year < k < r ==> !IsLeapYear(k)
      decreases NextLeap(year) - r
    {
      r := r + 1;
    }
  }

  // ----- The previous leap year -----

  /** The greatest multiple of four less than `year`. */
  function PreviousMultipleOf4(year: int): (c: int)
    ensures year - 4 <= c < year && c % 4 == 0
    ensures forall k :: c < k < year ==> k % 4 != 0
  {
    year - 1 - (year - 1) % 4
  }

  /** The previous positive leap year before `year`, in closed form.  Years 1
      to 3 are not leap and year 0 is never reported, so there is none exactly
      when `year <= 4`. */
  function PrevLeap(year: int): Option<int> {
    if year <= 4 then None
    else
      var c := PreviousMultipleOf4(year);
      if IsLeapYear(c) then Some(c) else Some(c - 4)
  }

  /** `PrevLeap(year)` is absent exactly when `1 .. year - 1` holds no leap year. */
  lemma PrevLeapAbsent(year: int)
    ensures PrevLeap(year).None? <==> forall k :: 0 < k < year ==> !IsLeapYear(k)
  {
    if year <= 4 {
      assert forall k :: 0 < k < year ==> k % 4 != 0;
    } else {
      assert IsLeapYear(4);
    }
  }

  /** When present, `PrevLeap(year)` is the greatest leap year in `1 .. year - 1`,
      at most eight years earlier. */
  lemma PrevLeapIsGreatest(year: int)
    requires PrevLeap(year).Some?
    ensures var p := PrevLeap(year).value;
            && 0 < p < year && year - p <= 8 && IsLeapYear(p)
            && forall k :: p < k < year ==> !IsLeapYear(k)
  {
    var c := PreviousMultipleOf4(year);
    if IsLeapYear(c) {
      forall k | c < k < year
        ensures !IsLeapYear(k)
      {
        NotMultipleOf4NotLeap(k);
      }
    } else {
      LeapBeforeCentury(c);
      forall k | c - 4 < k < year
        ensures !IsLeapYear(k)
      {
        if k < c {
          BetweenMultiplesNotLeap(c - 4, k);
        } else if k > c {
          NotMultipleOf4NotLeap(k);
        }
      }
    }
  }

  /** Four years before a positive century year that is not leap comes a
      positive leap year. */
  lemma LeapBeforeCentury(c: int)
    requires c > 0 && c % 4 == 0 && !IsLeapYear(c)
    ensures c - 4 > 0 && IsLeapYear(c - 4)
  {
    assert c % 100 == 0;
    assert (c - 4) % 100 == 96 && (c - 4) % 4 == 0;
  }

  /** The fixed cases the tests check, the lower cut-off and the gap after 1904. */
  lemma PrevLeapExamples()
    ensures PrevLeap(2023) == Some(2020) && PrevLeap(2001) == Some(2000) && PrevLeap(2024) == Some(2020)
    ensures PrevLeap(1904) == Some(1896)
    ensures PrevLeap(5) == Some(4) && PrevLeap(4) == None && PrevLeap(1) == None && PrevLeap(-7) == None
  {
  }

  /** `previous_leap_year`: steps back one year at a time from `year - 1` while
      the year is positive and not leap; a search that reaches 0 reports none. */
  method PreviousLeapYear(year: int) returns (r: Option<int>)
    ensures r.None? <==> forall k :: 0 < k < year ==> !IsLeapYear(k)
    ensures r.None? <==> year <= 4
    ensures r.Some? ==> 0 < r.value < year && year - r.value <= 8 && IsLeapYear(r.value)
    ensures r.Some? ==> forall k :: r.value < k < year ==> !IsLeapYear(k)
    ensures r == PrevLeap(year)
  {
    var y := year - 1;
    while y > 0 && !IsLeapYear(y)
      invariant y < year
      invariant forall k :: y < k < year ==> !IsLeapYear(k)
      decreases y
    {
      y := y - 1;
    }
    r := if y > 0 then Some(y) else None;
    PrevLeapAbsent(year);
    if r.Some? {
      PrevLeapIsGreatest(year);
    }
  }

  // ----- Converting command-line strings -----

  const InvalidYearPrefix := "invalid year: "

  /** `parse_years`: converts every string with `int()`, in order, and fails
      on the first one that does not convert, naming it; no partial list is
      returned. */
  method ParseYears(values: seq<string>) returns (r: Result<seq<int>, string>)
    ensures r.Success? <==> forall i :: 0 <= i < |values| ==> PyText.ParseInt(values[i]).Some?
    ensures r.Success? ==> |r.value| == |values|
    ensures r.Success? ==> forall i :: 0 <= i < |values| ==> PyText.ParseInt(values[i]) == Some(r.value[i])
    ensures r.Failure? ==>
              exists k :: && 0 <= k < |values| && PyText.ParseInt(values[k]).None?
                          && (forall i :: 0 <= i < k ==> PyText.ParseInt(values[i]).Some?)
                          && r.error == InvalidYearPrefix + values[k]
  {
    var years: seq<int> := [];
    for i := 0 to |values|
      invariant |years| == i
      invariant forall j :: 0 <= j < i ==> PyText.ParseInt(values[j]) == Some(years[j])
    {
      var y := PyText.ParseInt(values[i]);
      if y.None? {
        return Failure(InvalidYearPrefix + values[i]);
      }
      years := years + [y.value];
    }
    r := Success(years);
  }
}
