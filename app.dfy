/** The three API handlers of the web server, as functions and methods from
    the already-extracted request values (a `year` string, a `years` list) to
    either a response record or the error message of a 400 response. */
module App {
  import opened Common
  import opened LeapYear
  import PyText
  import Partition

  const YearMissing := "Год не указан"
  const YearNotNumber := "Год должен быть числом"
  const YearsMissing := "Годы не указаны"
  const InvalidValuePrefix := "Некорректное значение года: "

  /** The record one year yields: the year, its classification and the result line. */
  datatype YearCheck = YearCheck(year: int, isLeap: bool, message: string)

  function Classify(year: int): (c: YearCheck)
    ensures c.year == year && c.isLeap == IsLeapYear(year) && c.message == FormatResult(year)
  {
    YearCheck(year, IsLeapYear(year), FormatResult(year))
  }

  // ----- One year -----

  /** The validation both single-year handlers share: the `year` value is
      stripped (a missing one reads as ""), then a blank value and a value
      `int()` rejects are refused, in that order. */
  function ParseYearParam(param: Option<string>): (r: Result<int, string>)
    ensures r == Failure(YearMissing) <==> AllChars(param.GetOr(""), PyText.IsSpace)
    ensures r == Failure(YearNotNumber) <==>
              !AllChars(param.GetOr(""), PyText.IsSpace) && PyText.ParseInt(PyText.Strip(param.GetOr(""))).None?
    ensures r.Success? <==> PyText.ParseInt(PyText.Strip(param.GetOr(""))).Some?
    ensures r.Success? ==> PyText.ParseInt(PyText.Strip(param.GetOr(""))) == Some(r.value)
  {
    var raw := param.GetOr("");
    var yearStr := PyText.Strip(raw);
    TrimEmptyIffBlank(raw, PyText.IsSpace);
    if yearStr == "" then Failure(YearMissing)
    else match PyText.ParseInt(yearStr)
      case None => Failure(YearNotNumber)
      case Some(year) => Success(year)
  }

  /** `check_leap_year`: the year and whether it is leap, or the validation error. */
  function CheckLeapYear(param: Option<string>): (r: Result<YearCheck, string>)
    ensures r.Failure? <==> ParseYearParam(param).Failure?
    ensures r.Failure? ==> r.error == ParseYearParam(param).error
    ensures r.Success? ==> PyText.ParseInt(PyText.Strip(param.GetOr(""))) == Some(r.value.year)
    ensures r.Success? ==> r.value.isLeap == IsLeapYear(r.value.year)
    ensures r.Success? ==> r.value.message == FormatResult(r.value.year)
  {
    match ParseYearParam(param)
    case Failure(e) => Failure(e)
    case Success(year) => Success(Classify(year))
  }

  /** A year's decimal rendering is accepted and classified by the rule. */
  lemma CheckLeapYearShown(year: int)
    ensures CheckLeapYear(Some(PyText.ShowInt(year))) == Success(Classify(year))
  {
    PyText.StripShowInt(year);
    PyText.ParseShowInt(year);
  }

  /** A missing and a blank year are refused as not given. */
  lemma CheckLeapYearRefusesBlank()
    ensures CheckLeapYear(None) == Failure(YearMissing)
    ensures CheckLeapYear(Some("  ")) == Failure(YearMissing)
  {
    assert AllChars("", PyText.IsSpace);
    assert AllChars("  ", PyText.IsSpace);
  }

  /** A year that is not a number is refused as such. */
  lemma CheckLeapYearRefusesLetters()
    ensures CheckLeapYear(Some("abc")) == Failure(YearNotNumber)
  {
    PyText.ParseIntRejectsLetters();
    TrimUnchanged("abc", PyText.IsSpace);
    assert !AllChars("abc", PyText.IsSpace) by {
      assert !PyText.IsSpace("abc"[0]);
    }
  }

  // ----- Several years -----

  /** The record of a batch: successes and error messages, each in input order,
      and their counts. */
  datatype BatchCheck = BatchCheck(results: seq<YearCheck>, errors: seq<string>, total: int, errorCount: int)

  /** Whether one entry of the `years` list converts: `int(str(entry).strip())`. */
  predicate Converts(token: string) {
    PyText.ParseInt(PyText.Strip(token)).Some?
  }

  /** The outcome of one entry: its record, or the message naming the raw entry. */
  function CheckToken(token: string): (r: Result<YearCheck, string>)
    ensures r.Success? <==> Converts(token)
    ensures r.Success? ==> PyText.ParseInt(PyText.Strip(token)) == Some(r.value.year)
    ensures r.Success? ==> r.value.isLeap == IsLeapYear(r.value.year) && r.value.message == FormatResult(r.value.year)
    ensures r.Failure? ==> r.error == InvalidValuePrefix + token
  {
    match PyText.ParseInt(PyText.Strip(token))
    case Some(year) => Success(Classify(year))
    case None => Failure(InvalidValuePrefix + token)
  }

  /** The outcome of every entry, position by position. */
  function Outcomes(tokens: seq<string>): seq<Result<YearCheck, string>> {
    seq(|tokens|, i requires 0 <= i < |tokens| => CheckToken(tokens[i]))
  }

  /** The records of the entries that convert, in input order. */
  function Successes(tokens: seq<string>): seq<YearCheck> {
    Partition.Oks(Outcomes(tokens))
  }

  /** The messages of the entries that do not convert, in input order. */
  function Errors(tokens: seq<string>): seq<string> {
    Partition.Errs(Outcomes(tokens))
  }

  /** Every entry lands in exactly one of the two lists, and each list keeps
      input order: the k-th success is the record of the k-th entry that
      converts, the k-th error names the k-th entry that does not, and the
      positions of the two kinds are ascending and together cover every entry. */
  lemma BatchSortsEveryEntry(tokens: seq<string>)
    ensures |Successes(tokens)| + |Errors(tokens)| == |tokens|
    ensures var ps := Partition.Positions(Outcomes(tokens), true);
            && |ps| == |Successes(tokens)|
            && (forall i :: 0 <= i < |tokens| ==> (i in ps <==> Converts(tokens[i])))
            && (forall k :: 0 <= k < |ps| ==> CheckToken(tokens[ps[k]]) == Success(Successes(tokens)[k]))
    ensures var qs := Partition.Positions(Outcomes(tokens), false);
            && |qs| == |Errors(tokens)|
            && (forall i :: 0 <= i < |tokens| ==> (i in qs <==> !Converts(tokens[i])))
            && (forall k :: 0 <= k < |qs| ==> Errors(tokens)[k] == InvalidValuePrefix + tokens[qs[k]])
  {
    var rs := Outcomes(tokens);
    Partition.CountsAddUp(rs);
    Partition.PositionsExact(rs, true);
    Partition.PositionsExact(rs, false);
    Partition.OksAtPositions(rs);
    Partition.ErrsAtPositions(rs);
  }

  /** Every success reports the rule's verdict for its year, and the year is
      the value of the entry it came from. */
  lemma SuccessesFollowRule(tokens: seq<string>)
    ensures forall k :: 0 <= k < |Successes(tokens)| ==>
              Successes(tokens)[k].isLeap == IsLeapYear(Successes(tokens)[k].year)
  {
    Partition.OksAtPositions(Outcomes(tokens));
  }

  /** `check_multiple`: refuses a missing or empty list, then sorts each entry,
      in order, into the successes or the errors; `total` counts successes only. */
  method CheckMultiple(years: Option<seq<string>>) returns (r: Result<BatchCheck, string>)
    ensures r.Failure? <==> years.GetOr([]) == []
    ensures r.Failure? ==> r.error == YearsMissing
    ensures r.Success? ==> r.value.results == Successes(years.value) && r.value.errors == Errors(years.value)
    ensures r.Success? ==> r.value.total == |r.value.results| && r.value.errorCount == |r.value.errors|
    ensures r.Success? ==> r.value.total + r.value.errorCount == |years.value|
    ensures r.Success? ==> forall k :: 0 <= k < r.value.total ==>
              r.value.results[k].isLeap == IsLeapYear(r.value.results[k].year)
  {
    var tokens := years.GetOr([]);
    if tokens == [] {
      return Failure(YearsMissing);
    }
    ghost var outcomes := Outcomes(tokens);
    var results: seq<YearCheck> := [];
    var errors: seq<string> := [];
    for i := 0 to |tokens|
      invariant results == Partition.Oks(outcomes[..i])
      invariant errors == Partition.Errs(outcomes[..i])
    {
      assert outcomes[..i + 1][..i] == outcomes[..i];
      var outcome := CheckToken(tokens[i]);
      assert outcome == outcomes[i];
      if outcome.Success? {
        results := results + [outcome.value];
      } else {
        errors := errors + [outcome.error];
      }
    }
    assert outcomes[..|tokens|] == outcomes;
    BatchSortsEveryEntry(tokens);
    SuccessesFollowRule(tokens);
    r := Success(BatchCheck(results, errors, |results|, |errors|));
  }

  /** The decimal renderings of `years`, in order. */
  function ShowAll(years: seq<int>): (tokens: seq<string>)
    ensures |tokens| == |years| && forall i :: 0 <= i < |years| ==> tokens[i] == PyText.ShowInt(years[i])
  {
    seq(|years|, i requires 0 <= i < |years| => PyText.ShowInt(years[i]))
  }

  /** A rendered year is accepted and classified by the rule. */
  lemma CheckTokenShown(year: int)
    ensures CheckToken(PyText.ShowInt(year)) == Success(Classify(year))
  {
    PyText.StripShowInt(year);
    PyText.ParseShowInt(year);
  }

  /** A batch of rendered years (such as the tests' `['2023', '2024', '1900']`)
      is classified completely, in order, with no errors. */
  lemma BatchOfShownYears(years: seq<int>)
    ensures |Successes(ShowAll(years))| == |years| && Errors(ShowAll(years)) == []
    ensures forall i :: 0 <= i < |years| ==> Successes(ShowAll(years))[i] == Classify(years[i])
  {
    var rs := Outcomes(ShowAll(years));
    forall i | 0 <= i < |years|
      ensures rs[i] == Success(Classify(years[i]))
    {
      CheckTokenShown(years[i]);
    }
    Partition.AllSucceed(rs);
  }

  // ----- Adjacent leap years -----

  /** The record of the adjacent-years query. */
  datatype AdjacentCheck = AdjacentCheck(
    year: int, isLeap: bool,
    nextLeapYear: int, nextLeapYearsAway: int,
    previousLeapYear: Option<int>, previousLeapYearsAway: Option<int>,
    message: string)

  /** `adjacent_leap_years`: after the shared validation, the next and the
      previous leap year and their distances from the year.  The previous
      distance is computed only when the previous year is truthy in Python's
      sense (present and non-zero); it is never zero, so that is "present". */
  method AdjacentLeapYears(param: Option<string>) returns (r: Result<AdjacentCheck, string>)
    ensures r.Failure? <==> ParseYearParam(param).Failure?
    ensures r.Failure? ==> r.error == ParseYearParam(param).error
    ensures r.Success? ==> ParseYearParam(param) == Success(r.value.year)
    ensures r.Success? ==> r.value.isLeap == IsLeapYear(r.value.year) && r.value.message == FormatResult(r.value.year)
    ensures r.Success? ==> r.value.nextLeapYear == NextLeap(r.value.year)
    ensures r.Success? ==> r.value.nextLeapYearsAway == r.value.nextLeapYear - r.value.year
    ensures r.Success? ==> 1 <= r.value.nextLeapYearsAway <= 8
    ensures r.Success? ==> r.value.previousLeapYear == PrevLeap(r.value.year)
    ensures r.Success? ==> (r.value.previousLeapYearsAway.Some? <==> r.value.previousLeapYear.Some?)
    ensures r.Success? && r.value.previousLeapYear.Some? ==>
              && r.value.previousLeapYearsAway.value == r.value.year - r.value.previousLeapYear.value
              && 1 <= r.value.previousLeapYearsAway.value <= 8
  {
    match ParseYearParam(param)
    case Failure(e) =>
      return Failure(e);
    case Success(year) =>
      var next := NextLeapYear(year);
      var prev := PreviousLeapYear(year);
      var isCurrentLeap := IsLeapYear(year);
      var prevAway := if prev.Some? && prev.value != 0 then Some(year - prev.value) else None;
      r := Success(AdjacentCheck(year, isCurrentLeap, next, next - year, prev, prevAway, FormatResult(year)));
  }
}
