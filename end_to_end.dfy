/** The browser script and the server together, with the network left out:
    the answer a user sees for what they type into each of the three forms.
    A refusal by the script and an error response of the server both end as
    a message. */
module EndToEnd {
  import opened Common
  import PyText
  import LeapYear
  import App
  import Client

  /** The single-year form: the script's guard, then `check_leap_year` on
      the trimmed text. */
  function SubmitYear(value: string): (r: Result<App.YearCheck, string>)
    ensures AllChars(value, Client.IsJsSpace) ==> r == Failure(Client.EnterYear)
    ensures r == Failure(App.YearMissing) <==>
              !AllChars(value, Client.IsJsSpace) && AllChars(Client.JsTrim(value), PyText.IsSpace)
    ensures r.Success? <==>
              !AllChars(value, Client.IsJsSpace) && PyText.ParseInt(PyText.Strip(Client.JsTrim(value))).Some?
    ensures r.Failure? && !AllChars(value, Client.IsJsSpace) ==>
              r.error == App.ParseYearParam(Some(Client.JsTrim(value))).error
    ensures r.Success? ==> PyText.ParseInt(PyText.Strip(Client.JsTrim(value))) == Some(r.value.year)
    ensures r.Success? ==> r.value.isLeap == LeapYear.IsLeapYear(r.value.year)
    ensures r.Success? ==> r.value.message == LeapYear.FormatResult(r.value.year)
  {
    match Client.CheckYear(value)
    case Failure(message) => Failure(message)
    case Success(request) => App.CheckLeapYear(Some(request.year))
  }

  /** A rendered year typed into the single-year form is classified. */
  lemma SubmitShownYear(year: int)
    ensures SubmitYear(PyText.ShowInt(year)) == Success(App.Classify(year))
  {
    var shown := PyText.ShowInt(year);
    TrimUnchanged(shown, Client.IsJsSpace);
    assert !Client.IsJsSpace(shown[0]);
    App.CheckLeapYearShown(year);
  }

  /** U+001C is whitespace to Python and not to JavaScript: the script sends
      it, and the server answers that no year was given. */
  lemma WhitespaceClassesDiffer()
    ensures SubmitYear([0x1C as char]) == Failure(App.YearMissing)
  {
    var value := [0x1C as char];
    TrimUnchanged(value, Client.IsJsSpace);
    assert !AllChars(value, Client.IsJsSpace) by {
      assert !Client.IsJsSpace(value[0]);
    }
    assert AllChars(value, PyText.IsSpace);
  }

  /** The multi-year form: the script's guard and tokeniser, then
      `check_multiple` on the tokens. */
  method SubmitMultiple(value: string) returns (r: Result<App.BatchCheck, string>)
    ensures AllChars(value, Client.IsJsSpace) ==> r == Failure(Client.EnterAtLeastOneYear)
    ensures !AllChars(value, Client.IsJsSpace) && Client.Tokenize(value) == [] ==> r == Failure(App.YearsMissing)
    ensures Client.Tokenize(value) != [] ==> r.Success?
    ensures r.Success? ==> r.value.results == App.Successes(Client.Tokenize(value))
    ensures r.Success? ==> r.value.errors == App.Errors(Client.Tokenize(value))
    ensures r.Success? ==> r.value.total == |r.value.results| && r.value.errorCount == |r.value.errors|
    ensures r.Success? ==> r.value.total + r.value.errorCount == |Client.Tokenize(value)|
  {
    var sent := Client.CheckMultiple(value);
    if sent.Failure? {
      Client.BlankHasNoTokens(value);
      return Failure(sent.error);
    }
    r := App.CheckMultiple(Some(sent.value.years));
  }

  /** A rendered year is one token: digits and possibly a leading minus. */
  lemma ShownYearIsWord(year: int)
    ensures |PyText.ShowInt(year)| > 0 && AllChars(PyText.ShowInt(year), Client.IsWordChar)
  {
  }

  /** Rendered years typed with any commas and whitespace around and between
      them reach the server as exactly those renderings, in order, and every
      one of them is classified. */
  lemma SubmitShownYears(gaps: seq<string>, years: seq<int>)
    requires years != [] && |gaps| == |years| + 1
    requires forall i :: 0 <= i < |gaps| ==> AllChars(gaps[i], Client.IsSeparator)
    requires forall i :: 0 < i < |years| ==> |gaps[i]| > 0
    ensures var value := Client.Weave(gaps, App.ShowAll(years));
            && Client.CheckMultiple(value) == Success(Client.MultipleRequest(App.ShowAll(years)))
            && |App.Successes(Client.Tokenize(value))| == |years|
            && App.Errors(Client.Tokenize(value)) == []
            && forall i :: 0 <= i < |years| ==> App.Successes(Client.Tokenize(value))[i] == App.Classify(years[i])
  {
    var tokens := App.ShowAll(years);
    forall i | 0 <= i < |tokens|
      ensures |tokens[i]| > 0 && AllChars(tokens[i], Client.IsWordChar)
    {
      ShownYearIsWord(years[i]);
    }
    assert Client.WellSeparated(gaps, tokens);
    var value := Client.Weave(gaps, tokens);
    Client.TokenizeWeave(gaps, tokens);
    if AllChars(value, Client.IsJsSpace) {
      Client.BlankHasNoTokens(value);
    }
    App.BatchOfShownYears(years);
  }

  /** Commas alone pass the script's guard (they are not whitespace) but give
      no token: the script sends an empty list, which `SubmitMultiple` shows
      the server refuses. */
  lemma OnlyCommasGiveNoYears(value: string)
    requires |value| > 0 && forall i :: 0 <= i < |value| ==> value[i] == ','
    ensures Client.CheckMultiple(value) == Success(Client.MultipleRequest([]))
  {
    assert !Client.IsJsSpace(value[0]);
    assert AllChars(value, Client.IsSeparator);
    Client.TokenizeSkipsSeparators(value, []);
    assert value + [] == value;
    Client.TokenizeEmpty();
  }

  /** The adjacent-years form: the script's guard, then `adjacent_leap_years`
      on the trimmed text. */
  method SubmitAdjacent(value: string) returns (r: Result<App.AdjacentCheck, string>)
    ensures AllChars(value, Client.IsJsSpace) ==> r == Failure(Client.EnterYear)
    ensures r == Failure(App.YearMissing) <==>
              !AllChars(value, Client.IsJsSpace) && AllChars(Client.JsTrim(value), PyText.IsSpace)
    ensures r.Success? <==>
              !AllChars(value, Client.IsJsSpace) && PyText.ParseInt(PyText.Strip(Client.JsTrim(value))).Some?
    ensures r.Failure? && !AllChars(value, Client.IsJsSpace) ==>
              r.error == App.ParseYearParam(Some(Client.JsTrim(value))).error
    ensures r.Success? ==> PyText.ParseInt(PyText.Strip(Client.JsTrim(value))) == Some(r.value.year)
    ensures r.Success? ==> r.value.isLeap == LeapYear.IsLeapYear(r.value.year)
    ensures r.Success? ==> r.value.message == LeapYear.FormatResult(r.value.year)
    ensures r.Success? ==> r.value.nextLeapYear == LeapYear.NextLeap(r.value.year)
    ensures r.Success? ==> r.value.nextLeapYearsAway == r.value.nextLeapYear - r.value.year
    ensures r.Success? ==> 1 <= r.value.nextLeapYearsAway <= 8
    ensures r.Success? ==> r.value.previousLeapYear == LeapYear.PrevLeap(r.value.year)
    ensures r.Success? ==> (r.value.previousLeapYearsAway.Some? <==> r.value.previousLeapYear.Some?)
    ensures r.Success? && r.value.previousLeapYear.Some? ==>
              && r.value.previousLeapYearsAway.value == r.value.year - r.value.previousLeapYear.value
              && 1 <= r.value.previousLeapYearsAway.value <= 8
  {
    var sent := Client.CheckAdjacentLeapYears(value);
    if sent.Failure? {
      return Failure(sent.error);
    }
    r := App.AdjacentLeapYears(Some(sent.value.year));
  }

  /** For the years -4 to -1 the next leap year is year 0, which the script's
      truthiness test on the next year would not display. */
  lemma NextLeapZero(year: int)
    requires -4 <= year <= -1
    ensures LeapYear.NextLeap(year) == 0
  {
  }
}
