/** The browser script's pure helpers: the blank-input guards of the three
    forms, the tokeniser of the multi-year field, the Russian plural choice
    and the explanation of the leap rule. */
module Client {
  import opened Common
  import LeapYear
  import PyText

  // ----- JavaScript whitespace and trimming -----

  /** The characters `String.prototype.trim()` removes and the regular
      expression class `\s` matches: the ECMAScript WhiteSpace and
      LineTerminator characters. */
  predicate IsJsSpace(c: char) {
    var k := c as int;
    || (0x09 <= k <= 0x0D) || k == 0x20 || k == 0xA0 || k == 0x1680
    || (0x2000 <= k <= 0x200A) || k == 0x2028 || k == 0x2029
    || k == 0x202F || k == 0x205F || k == 0x3000 || k == 0xFEFF
  }

  /** `s.trim()`. */
  function JsTrim(s: string): string {
    Trim(s, IsJsSpace)
  }

  // ----- The tokeniser of the multi-year field -----

  /** A character of the class `[,\s]`. */
  predicate IsSeparator(c: char) {
    c == ',' || IsJsSpace(c)
  }

  /** A character that can be part of a token. */
  predicate IsWordChar(c: char) {
    !IsSeparator(c)
  }

  /** `s.split(/[,\s]+/)`: the pieces between maximal runs of separators.
      A separator at the start or the end gives an empty first or last
      piece, and a string without separators is a single piece. */
  function SplitOnSeparators(s: string): seq<string>
    decreases |s|
  {
    var w := LeadingRun(s, IsWordChar);
    if w == |s| then [s]
    else
      assert s[w..][0] == s[w];
      var g := LeadingRun(s[w..], IsSeparator);
      [s[..w]] + SplitOnSeparators(s[w + g..])
  }

  /** `.filter(y => y.length > 0)`. */
  function DropEmpty(xs: seq<string>): seq<string> {
    if xs == [] then []
    else (if xs[0] == [] then [] else [xs[0]]) + DropEmpty(xs[1..])
  }

  /** The tokens the script sends for the text of the multi-year field. */
  function Tokenize(s: string): seq<string> {
    DropEmpty(SplitOnSeparators(s))
  }

  lemma TokenizeEmpty()
    ensures Tokenize([]) == []
  {
    assert SplitOnSeparators([]) == [[]];
  }

  /** A leading run of separators yields no token. */
  lemma TokenizeDropsLeadingSeparators(s: string, k: nat)
    requires k == LeadingRun(s, IsSeparator)
    ensures Tokenize(s) == Tokenize(s[k..])
  {
    if k > 0 {
      assert LeadingRun(s, IsWordChar) == 0;
      assert s[0..] == s;
      var pieces := SplitOnSeparators(s);
      assert pieces == [[]] + SplitOnSeparators(s[k..]);
      assert pieces[1..] == SplitOnSeparators(s[k..]);
    } else {
      assert s[0..] == s;
    }
  }

  /** Separators in front of any text change nothing. */
  lemma TokenizeSkipsSeparators(g: string, r: string)
    requires AllChars(g, IsSeparator)
    ensures Tokenize(g + r) == Tokenize(r)
  {
    var s := g + r;
    var k := LeadingRun(r, IsSeparator);
    LeadingRunConcat(g, r, IsSeparator);
    TokenizeDropsLeadingSeparators(s, |g| + k);
    assert s[|g| + k..] == r[k..];
    var rest := Tokenize(r[k..]);
    assert Tokenize(s) == rest;
    TokenizeDropsLeadingSeparators(r, k);
    assert Tokenize(r) == rest;
  }

  /** A separator-free word followed by nothing or by a separator is the
      first token. */
  lemma TokenizeTakesWord(t: string, r: string)
    requires |t| > 0 && AllChars(t, IsWordChar)
    requires r == [] || IsSeparator(r[0])
    ensures Tokenize(t + r) == [t] + Tokenize(r)
  {
    var s := t + r;
    LeadingRunConcat(t, r, IsWordChar);
    assert LeadingRun(r, IsWordChar) == 0;
    if r == [] {
      assert s == t;
      assert SplitOnSeparators(s) == [t];
      assert [t][1..] == [];
      TokenizeEmpty();
    } else {
      assert s[|t|..] == r && s[..|t|] == t;
      var g := LeadingRun(r, IsSeparator);
      assert s[|t| + g..] == r[g..];
      var pieces := SplitOnSeparators(s);
      assert pieces == [t] + SplitOnSeparators(r[g..]);
      assert pieces[1..] == SplitOnSeparators(r[g..]);
      TokenizeDropsLeadingSeparators(r, g);
    }
  }

  /** `gaps[0] + ts[0] + gaps[1] + ... + ts[n-1] + gaps[n]`. */
  function Weave(gaps: seq<string>, ts: seq<string>): string
    requires |gaps| == |ts| + 1
    decreases |ts|
  {
    if ts == [] then gaps[0]
    else gaps[0] + (ts[0] + Weave(gaps[1..], ts[1..]))
  }

  /** Tokens laid out between runs of separators: every gap is made of
      separators, the gaps between two tokens are not empty, and every
      token is a non-empty run of other characters. */
  predicate WellSeparated(gaps: seq<string>, ts: seq<string>) {
    && |gaps| == |ts| + 1
    && (forall i :: 0 <= i < |gaps| ==> AllChars(gaps[i], IsSeparator))
    && (forall i :: 0 < i < |ts| ==> |gaps[i]| > 0)
    && (forall i :: 0 <= i < |ts| ==> |ts[i]| > 0 && AllChars(ts[i], IsWordChar))
  }

  lemma WellSeparatedTail(gaps: seq<string>, ts: seq<string>)
    requires WellSeparated(gaps, ts) && ts != []
    ensures WellSeparated(gaps[1..], ts[1..])
  {
    forall i | 0 < i < |ts| - 1
      ensures |gaps[1..][i]| > 0
    {
      assert gaps[1..][i] == gaps[i + 1];
    }
  }

  /** However the tokens are laid out, the tokeniser gives them back. */
  lemma {:induction false} TokenizeWeave(gaps: seq<string>, ts: seq<string>)
    requires WellSeparated(gaps, ts)
    ensures Tokenize(Weave(gaps, ts)) == ts
  {
    if ts == [] {
      assert gaps[0] + [] == gaps[0];
      TokenizeSkipsSeparators(gaps[0], []);
      TokenizeEmpty();
    } else {
      WellSeparatedTail(gaps, ts);
      var rest := Weave(gaps[1..], ts[1..]);
      TokenizeWeave(gaps[1..], ts[1..]);
      TokenizeSkipsSeparators(gaps[0], ts[0] + rest);
      if |ts| == 1 {
        assert rest == gaps[1];
      } else {
        assert rest == gaps[1] + (ts[1] + Weave(gaps[2..], ts[2..]));
        assert rest[0] == gaps[1][0];
      }
      TokenizeTakesWord(ts[0], rest);
      assert [ts[0]] + ts[1..] == ts;
    }
  }

  /** The separator runs around and between the tokens of `s`. */
  function Gaps(s: string): (gaps: seq<string>)
    ensures |gaps| > 0
    decreases |s|
  {
    var g := LeadingRun(s, IsSeparator);
    if g == |s| then [s]
    else
      var rest := s[g..];
      assert rest[0] == s[g];
      var w := LeadingRun(rest, IsWordChar);
      [s[..g]] + Gaps(rest[w..])
  }

  /** One more token, with the gap in front of it. */
  lemma WellSeparatedCons(lead: string, word: string, gaps: seq<string>, ts: seq<string>)
    requires WellSeparated(gaps, ts) && (ts == [] || |gaps[0]| > 0)
    requires AllChars(lead, IsSeparator) && |word| > 0 && AllChars(word, IsWordChar)
    ensures WellSeparated([lead] + gaps, [word] + ts)
    ensures Weave([lead] + gaps, [word] + ts) == lead + (word + Weave(gaps, ts))
  {
    assert ([lead] + gaps)[1..] == gaps && ([word] + ts)[1..] == ts;
  }

  /** A string with a token splits into the separators before it, the
      token, and the rest, which is empty or starts with a separator. */
  lemma FirstToken(s: string) returns (lead: string, word: string, after: string)
    requires LeadingRun(s, IsSeparator) < |s|
    ensures s == lead + (word + after) && |after| < |s|
    ensures AllChars(lead, IsSeparator) && |word| > 0 && AllChars(word, IsWordChar)
    ensures after == [] || IsSeparator(after[0])
    ensures Tokenize(s) == [word] + Tokenize(after)
    ensures Gaps(s) == [lead] + Gaps(after)
  {
    lead, word, after := FirstRuns(s);
    TokenizeDropsLeadingSeparators(s, LeadingRun(s, IsSeparator));
    TokenizeTakesWord(word, after);
  }

  /** The leading separators, the first word and the rest of a string that
      holds a word: the pieces `Gaps` takes apart. */
  lemma FirstRuns(s: string) returns (lead: string, word: string, after: string)
    requires LeadingRun(s, IsSeparator) < |s|
    ensures s == lead + (word + after) && |after| < |s|
    ensures s[LeadingRun(s, IsSeparator)..] == word + after
    ensures AllChars(lead, IsSeparator) && |word| > 0 && AllChars(word, IsWordChar)
    ensures after == [] || IsSeparator(after[0])
    ensures Gaps(s) == [lead] + Gaps(after)
  {
    var g := LeadingRun(s, IsSeparator);
    var rest := s[g..];
    assert rest[0] == s[g];
    var w := LeadingRun(rest, IsWordChar);
    lead, word, after := s[..g], rest[..w], rest[w..];
    assert rest == word + after;
  }

  lemma GapsFirstNonEmpty(s: string)
    requires s != [] && IsSeparator(s[0])
    ensures |Gaps(s)[0]| > 0
  {
    var g := LeadingRun(s, IsSeparator);
    if g < |s| {
      assert Gaps(s)[0] == s[..g];
    }
  }

  /** Every string is its tokens laid out between its separator runs, so the
      tokens are exactly the maximal separator-free runs, in order. */
  lemma {:induction false} TokenizeDecomposes(s: string)
    ensures WellSeparated(Gaps(s), Tokenize(s))
    ensures Weave(Gaps(s), Tokenize(s)) == s
    decreases |s|
  {
    var g := LeadingRun(s, IsSeparator);
    if g == |s| {
      TokenizeDropsLeadingSeparators(s, g);
      assert s[g..] == [];
      TokenizeEmpty();
    } else {
      var lead, word, after := FirstToken(s);
      TokenizeDecomposes(after);
      if after != [] {
        GapsFirstNonEmpty(after);
      } else {
        TokenizeEmpty();
      }
      WellSeparatedCons(lead, word, Gaps(after), Tokenize(after));
    }
  }

  /** Every token is non-empty and free of commas and whitespace. */
  lemma TokensAreWords(s: string)
    ensures forall i :: 0 <= i < |Tokenize(s)| ==> |Tokenize(s)[i]| > 0 && AllChars(Tokenize(s)[i], IsWordChar)
  {
    TokenizeDecomposes(s);
  }

  /** Separators after any text change nothing. */
  lemma TokenizeIgnoresTrailingSeparators(m: string, tail: string)
    requires AllChars(tail, IsSeparator)
    ensures Tokenize(m + tail) == Tokenize(m)
  {
    var ts := Tokenize(m);
    var gaps := Gaps(m);
    TokenizeDecomposes(m);
    var gaps' := gaps[..|ts|] + [gaps[|ts|] + tail];
    WeaveAppend(gaps, ts, tail);
    WellSeparatedExtendLast(gaps, ts, tail);
    TokenizeWeave(gaps', ts);
  }

  /** Lengthening the last gap by separators keeps the layout well separated. */
  lemma WellSeparatedExtendLast(gaps: seq<string>, ts: seq<string>, tail: string)
    requires WellSeparated(gaps, ts) && AllChars(tail, IsSeparator)
    ensures WellSeparated(gaps[..|ts|] + [gaps[|ts|] + tail], ts)
  {
    var n := |ts|;
    var gaps' := gaps[..n] + [gaps[n] + tail];
    forall i | 0 <= i < n
      ensures gaps'[i] == gaps[i]
    {
    }
  }

  lemma {:induction false} WeaveAppend(gaps: seq<string>, ts: seq<string>, tail: string)
    requires |gaps| == |ts| + 1
    ensures Weave(gaps, ts) + tail == Weave(gaps[..|ts|] + [gaps[|ts|] + tail], ts)
    decreases |ts|
  {
    var n := |ts|;
    var gaps' := gaps[..n] + [gaps[n] + tail];
    if n == 0 {
      assert gaps' == [gaps[0] + tail];
    } else {
      WeaveAppend(gaps[1..], ts[1..], tail);
      assert gaps'[0] == gaps[0];
      assert gaps'[1..] == gaps[1..][..n - 1] + [gaps[1..][n - 1] + tail];
    }
  }

  /** Trimming before splitting changes nothing: the whitespace `trim()`
      removes is made of separators. */
  lemma TokenizeIgnoresTrim(s: string)
    ensures Tokenize(JsTrim(s)) == Tokenize(s)
  {
    var m := JsTrim(s);
    var lead, tail := TrimSurroundings(s, IsJsSpace);
    SpacesAreSeparators(lead);
    SpacesAreSeparators(tail);
    TokenizeSkipsSeparators(lead, m + tail);
    TokenizeIgnoresTrailingSeparators(m, tail);
  }

  /** A blank field holds no token. */
  lemma BlankHasNoTokens(s: string)
    requires AllChars(s, IsJsSpace)
    ensures Tokenize(s) == []
  {
    TrimEmptyIffBlank(s, IsJsSpace);
    TokenizeIgnoresTrim(s);
    TokenizeEmpty();
  }

  lemma SpacesAreSeparators(s: string)
    requires AllChars(s, IsJsSpace)
    ensures AllChars(s, IsSeparator)
  {
  }

  // ----- The blank-input guards -----

  const EnterYear := "Пожалуйста, введите год"
  const EnterAtLeastOneYear := "Пожалуйста, введите хотя бы один год"

  /** The request a form sends: the single-year query, the batch query and
      the adjacent-years query. */
  datatype Request =
    | CheckRequest(year: string)
    | MultipleRequest(years: seq<string>)
    | AdjacentRequest(year: string)

  /** `checkYear`: a field that is blank after `trim()` is refused with a
      message and sends nothing; otherwise the trimmed text is sent. */
  function CheckYear(value: string): (r: Result<Request, string>)
    ensures r.Failure? <==> AllChars(value, IsJsSpace)
    ensures r.Failure? ==> r.error == EnterYear
    ensures r.Success? ==> r.value.CheckRequest? && r.value.year == JsTrim(value)
    ensures r.Success? ==> |r.value.year| > 0 && !IsJsSpace(r.value.year[0])
  {
    TrimEmptyIffBlank(value, IsJsSpace);
    var year := JsTrim(value);
    if year == [] then Failure(EnterYear) else Success(CheckRequest(year))
  }

  /** `checkMultiple`: a field that is blank after `trim()` is refused;
      otherwise the tokens of the trimmed text are sent. */
  function CheckMultiple(value: string): (r: Result<Request, string>)
    ensures r.Failure? <==> AllChars(value, IsJsSpace)
    ensures r.Failure? ==> r.error == EnterAtLeastOneYear
    ensures r.Success? ==> r.value.MultipleRequest? && r.value.years == Tokenize(value)
  {
    TrimEmptyIffBlank(value, IsJsSpace);
    TokenizeIgnoresTrim(value);
    var input := JsTrim(value);
    if input == [] then Failure(EnterAtLeastOneYear)
    else Success(MultipleRequest(Tokenize(input)))
  }

  /** `checkAdjacentLeapYears`: the same guard as `checkYear`, for the
      adjacent-years query. */
  function CheckAdjacentLeapYears(value: string): (r: Result<Request, string>)
    ensures r.Failure? <==> AllChars(value, IsJsSpace)
    ensures r.Failure? ==> r.error == EnterYear
    ensures r.Success? ==> r.value.AdjacentRequest? && r.value.year == JsTrim(value)
    ensures r.Success? ==> |r.value.year| > 0 && !IsJsSpace(r.value.year[0])
  {
    TrimEmptyIffBlank(value, IsJsSpace);
    var year := JsTrim(value);
    if year == [] then Failure(EnterYear) else Success(AdjacentRequest(year))
  }

  // ----- JavaScript arithmetic -----

  /** JavaScript's `n % d` for a positive divisor: the remainder of the
      division truncated toward zero, which takes the sign of `n`. */
  function TruncRem(n: int, d: int): (r: int)
    requires d > 0
    ensures n >= 0 ==> 0 <= r < d
    ensures n < 0 ==> -d < r <= 0
    ensures (if r < 0 then -r else r) == (if n < 0 then -n else n) % d
  {
    if n >= 0 then n % d else -((-n) % d)
  }

  /** The zero tests of the explanation read the same with either remainder. */
  lemma TruncRemZero(n: int)
    ensures TruncRem(n, 4) == 0 <==> n % 4 == 0
    ensures TruncRem(n, 100) == 0 <==> n % 100 == 0
    ensures TruncRem(n, 400) == 0 <==> n % 400 == 0
  {
    var m := -n;
    assert m == 4 * (m / 4) + m % 4 && n == 4 * (n / 4) + n % 4;
    assert m == 100 * (m / 100) + m % 100 && n == 100 * (n / 100) + n % 100;
    assert m == 400 * (m / 400) + m % 400 && n == 400 * (n / 400) + n % 400;
  }

  // ----- Russian plural forms -----

  /** `getPluralForm(number, form1, form2, form5)`: the form for one ("год"),
      for a few ("года") or for many ("лет"). */
  function GetPluralForm(number: int, form1: string, form2: string, form5: string): (form: string)
    ensures form == form1 || form == form2 || form == form5
  {
    var mod10 := TruncRem(number, 10);
    var mod100 := TruncRem(number, 100);
    if mod10 == 1 && mod100 != 11 then form1
    else if 2 <= mod10 <= 4 && (mod100 < 10 || mod100 >= 20) then form2
    else form5
  }

  /** The Russian cardinal plural rule as grammars state it: numbers ending
      in 11 to 14 take the "many" form, then the last digit decides. */
  function RussianPlural(n: nat, one: string, few: string, many: string): string {
    var lastTwo := n % 100;
    var last := n % 10;
    if 11 <= lastTwo <= 14 then many
    else if last == 1 then one
    else if 2 <= last <= 4 then few
    else many
  }

  lemma LastDigitOfLastTwo(n: int)
    ensures (n % 100) % 10 == n % 10
  {
    assert n == 10 * (10 * (n / 100)) + n % 100;
  }

  /** For a natural number the script's choice is the grammatical rule. */
  lemma PluralFormFollowsRussianRule(n: nat, form1: string, form2: string, form5: string)
    ensures GetPluralForm(n, form1, form2, form5) == RussianPlural(n, form1, form2, form5)
  {
    LastDigitOfLastTwo(n);
  }

  /** When the three forms differ, "one" is chosen exactly for a last digit 1
      outside 11, "few" exactly for a last digit 2 to 4 outside 12 to 14, and
      "many" otherwise. */
  lemma PluralFormChoice(n: nat, form1: string, form2: string, form5: string)
    requires form1 != form2 && form1 != form5 && form2 != form5
    ensures GetPluralForm(n, form1, form2, form5) == form1 <==> n % 10 == 1 && n % 100 != 11
    ensures GetPluralForm(n, form1, form2, form5) == form2 <==> 2 <= n % 10 <= 4 && !(12 <= n % 100 <= 14)
    ensures GetPluralForm(n, form1, form2, form5) == form5 <==>
              !(n % 10 == 1 && n % 100 != 11) && !(2 <= n % 10 <= 4 && !(12 <= n % 100 <= 14))
  {
    LastDigitOfLastTwo(n);
  }

  /** For a natural number only the last two digits matter. */
  lemma PluralFormByLastTwoDigits(n: nat, m: nat, form1: string, form2: string, form5: string)
    requires n % 100 == m % 100
    ensures GetPluralForm(n, form1, form2, form5) == GetPluralForm(m, form1, form2, form5)
  {
    LastDigitOfLastTwo(n);
    LastDigitOfLastTwo(m);
  }

  /** The truncated remainder of a negative number is never positive, so every
      negative number takes the "many" form. */
  lemma NegativeTakesMany(n: int, form1: string, form2: string, form5: string)
    requires n < 0
    ensures GetPluralForm(n, form1, form2, form5) == form5
  {
  }

  /** The fixed cases: 1, 21 and 101 take "one"; 11 to 14 take "many". */
  lemma PluralFormExamples(form1: string, form2: string, form5: string)
    ensures GetPluralForm(1, form1, form2, form5) == form1
    ensures GetPluralForm(21, form1, form2, form5) == form1
    ensures GetPluralForm(101, form1, form2, form5) == form1
    ensures GetPluralForm(11, form1, form2, form5) == form5 && GetPluralForm(12, form1, form2, form5) == form5
    ensures GetPluralForm(13, form1, form2, form5) == form5 && GetPluralForm(14, form1, form2, form5) == form5
    ensures GetPluralForm(2, form1, form2, form5) == form2 && GetPluralForm(8, form1, form2, form5) == form5
  {
  }

  // ----- The explanation of the rule -----

  /** The branch `getLeapYearExplanation` takes, with the quotient it prints. */
  datatype Explanation =
    | DividesBy400(quotient: int)
    | CenturyNotBy400(quotient: int)
    | DividesBy4Not100(quotient: int)
    | NotDivisibleBy4

  /** The tests run in the script's order (400, then 100, then 4), and each
      division happens only after its divisibility test, so every printed
      quotient is exact; the two branches that say "divides" are exactly the
      leap years of the server's rule. */
  function ExplanationOf(year: int): (e: Explanation)
    ensures e.DividesBy400? ==> year == 400 * e.quotient
    ensures e.CenturyNotBy400? ==> year == 100 * e.quotient
    ensures e.DividesBy4Not100? ==> year == 4 * e.quotient
    ensures e.DividesBy400? || e.DividesBy4Not100? <==> LeapYear.IsLeapYear(year)
    ensures e.CenturyNotBy400? <==> year % 100 == 0 && !LeapYear.IsLeapYear(year)
    ensures e.NotDivisibleBy4? <==> year % 4 != 0
  {
    TruncRemZero(year);
    LeapYear.HundredDividesFourHundreds(year);
    LeapYear.FourDividesHundreds(year);
    if TruncRem(year, 400) == 0 then DividesBy400(year / 400)
    else if TruncRem(year, 100) == 0 then CenturyNotBy400(year / 100)
    else if TruncRem(year, 4) == 0 then DividesBy4Not100(year / 4)
    else NotDivisibleBy4
  }

  /** `getLeapYearExplanation(year)`: the text, which starts with the year
      and ends with a remark in parentheses exactly for a leap year.  A
      number is rendered in decimal as the server renders it. */
  function GetLeapYearExplanation(year: int): (text: string)
    ensures |text| > |PyText.ShowInt(year)| && text[..|PyText.ShowInt(year)|] == PyText.ShowInt(year)
    ensures text[|text| - 1] == ')' <==> LeapYear.IsLeapYear(year)
  {
    var y := PyText.ShowInt(year);
    match ExplanationOf(year)
    case DividesBy400(q) => y + " ÷ 400 = " + PyText.ShowInt(q) + " (делится на 400)"
    case CenturyNotBy400(q) => y + " ÷ 100 = " + PyText.ShowInt(q) + ", но не делится на 400"
    case DividesBy4Not100(q) => y + " ÷ 4 = " + PyText.ShowInt(q) + " (делится на 4, не делится на 100)"
    case NotDivisibleBy4 => y + " не делится на 4"
  }
}
