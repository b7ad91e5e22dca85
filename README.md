# Leap-year checker — a Dafny model

The repository is a small leap-year checker in Russian. It has three parts:

- a Python library, `leap_year.py`: the Gregorian rule, the result line, a search for the next and the previous leap year, and the conversion of command-line strings to years;
- a Flask server, `app.py`, with three JSON handlers: one year, several years, and the leap years next to a year;
- a browser script, `static/script.js`. It guards the three forms against blank input, splits the multi-year field into tokens, explains the rule, and picks the Russian plural of "год".

This project models those parts in Dafny and proves what each promises.

| module | file | models |
|---|---|---|
| `Common` | `common.dfy` | `Option`, `Result`, and trimming a string by a whitespace class |
| `PyText` | `py_text.dfy` | Python's `str.strip()`, `int(s)` and `str(n)` |
| `LeapYear` | `leap_year.dfy` | `leap_year.py` |
| `Partition` | `partition.dfy` | splitting per-entry outcomes into successes and errors, in order |
| `App` | `app.dfy` | the three handlers of `app.py` |
| `Client` | `client.dfy` | the pure helpers and input guards of `static/script.js` |
| `EndToEnd` | `end_to_end.dfy` | a form's input passed through the script and then the server |

Modelling decisions:

- **`int(s)` is an explicit grammar** for numbers written in ASCII digits:
  - surrounding whitespace is skipped. This class (`IsIntSpace`) is narrower than the one `str.strip()` removes (`IsSpace`, the full `str.isspace()` set). `int()` passes each ASCII character through unchanged and then skips only the ASCII whitespace of `bytes.isspace()`. A non-ASCII whitespace character such as U+0085 becomes a space first. So U+001C–U+001F are removed by `strip()`, but `int()` refuses them;
  - an optional `+` or `-` follows;
  - then decimal digits, where a single `_` may stand between two digits.

  Every other string is `None`, which stands for `ValueError`. The handlers strip before they convert, so their contracts are stated on `int(s.strip())`.
- **The two search loops are methods.** `next_leap_year` and `previous_leap_year` become `while` loops. Each is proved against a closed form (`NextLeap`, `PrevLeap`), and lemmas prove that the closed form is the least or greatest leap year.
- **The gap between leap years is up to 8, not 4.** 1896 is followed by 1904, because 1900 is not leap. The model follows the code: the bound proved is 8.
- **`check_multiple` is a method.** Its `for` loop appends to the two lists. It is proved equal to two list functions, `Successes` and `Errors`, built on the generic `Partition` module. Lemmas then prove that every entry lands in exactly one list, in input order.
- **The single-year handlers take the `year` value as an `Option<string>`.** A missing value reads as `""`, as `.get('year', '')` does.
- **JavaScript differs from Python in three places, and the model keeps each difference:**
  - `String.prototype.trim()` and the regex class `\s` use the ECMAScript whitespace set. It includes U+FEFF but not U+001C–U+001F or U+0085, so it is not Python's set.
  - JavaScript's `%` is a truncated remainder (`TruncRem`), so a negative number's remainder is never positive.
  - `year / 400` is a float division in JavaScript. It is modelled as integer division, which is exact after the matching test succeeds.
- **A number is rendered the same way in JavaScript and in Python below 10^21 in magnitude.** `ShowInt` is the decimal rendering in both `${n}` and an f-string's `{n}`. From 10^21 on, JavaScript switches to exponent notation (see "Left out").

## Model

| member | source | states |
|---|---|---|
| `Common.Trim` | app.py:24 | The stripped string is the slice that starts after the leading whitespace. Only whitespace follows it, and neither of its ends is whitespace. |
| `Common.TrimEmptyIffBlank` | app.py:24-27 | Stripping gives `""` exactly when the input is all whitespace; this is the `if not year_str` test. |
| `PyText.IsSpace` | app.py:22-24 | The whitespace `str.strip()` removes: every code point `str.isspace()` accepts. |
| `PyText.IsIntSpace` | app.py:29-30 | The whitespace `int()` skips: `IsSpace` without U+001C–U+001F. |
| `PyText.Strip` | app.py:22-24 | `str.strip()` with no argument: `Common.Trim` by `IsSpace`. |
| `PyText.ParseSignedDigits` | app.py:29-32 | The sign-and-digits grammar `int()` reads after skipping whitespace. |
| `PyText.ParseInt` | app.py:29-32 | `int()` succeeds only on a string that is not blank. |
| `PyText.ParseIntOfStripped` | app.py:56 | On a stripped string, `int()` reads the sign and digits directly; there is nothing left to skip. |
| `PyText.ParseIntStrip` | app.py:56 | `int(s.strip())` equals `int(s)` when `s` holds none of U+001C–U+001F. |
| `PyText.ParseIntWhitespaceClass` | app.py:24-30 | `int("\x1c7")` raises while `int("\x1c7".strip())` is 7; `int("\x857")` is 7. |
| `PyText.ShowInt` | leap_year.py:32 | A year renders as a non-empty string of digits with a leading minus sign exactly when it is negative. There is no leading zero, and the rendering is `"0"` exactly for 0: the canonical `str(n)`. |
| `PyText.ParseShowInt` | app.py:30 | `int(str(n)) == n` for every integer `n`. |
| `PyText.ShowIntExamples` | tests/test_leap_year.py:36 | 2024 and 2023 render as `"2024"` and `"2023"`. |
| `PyText.ShowIntCenturyExamples` | tests/test_leap_year.py:36 | 2000 and 1900 render as `"2000"` and `"1900"`. |
| `PyText.ShowIntSignExamples` | leap_year.py:32 | -12 renders as `"-12"` and 0 renders as `"0"`. |
| `PyText.ParseIntDecimalExamples` | tests/test_leap_year.py:28-36 | `int()` of the test years' strings gives those years, and `int("-12")` is -12. |
| `PyText.ParseIntSpaceAndSignExamples` | app.py:56 | `int(" 7\n")` and `int("+7")` are both 7. |
| `PyText.ParseIntUnderscoreExample` | app.py:30 | `int("1_000")` is 1000. |
| `PyText.ParseIntRejectsIncomplete` | app.py:29-32 | `""`, `"-"` and `"- 1"` raise `ValueError`. |
| `PyText.ParseIntRejectsMisplacedUnderscore` | app.py:29-32 | `"_1"`, `"1_"` and `"1__0"` raise `ValueError`. |
| `PyText.ParseIntRejectsLetters` | app.py:29-32 | `"abc"` and `"20x4"` raise `ValueError`. |
| `LeapYear.IsLeapYear` | leap_year.py:27 | The Gregorian rule as the code writes it. Its properties are stated by the lemmas below. |
| `LeapYear.LeapPeriod400` | leap_year.py:27 | The rule repeats every 400 years, for negative years too. |
| `LeapYear.NotMultipleOf4NotLeap` | leap_year.py:27 | A year that is not a multiple of 4 is never leap. |
| `LeapYear.BetweenMultiplesNotLeap` | leap_year.py:27 | No year strictly between two consecutive multiples of 4 is leap. |
| `LeapYear.HundredDividesFourHundreds` | static/script.js:264-268 | Arithmetic helper for the explanation's branch order: every multiple of 400 is a multiple of 100. |
| `LeapYear.FourDividesHundreds` | static/script.js:264-268 | Arithmetic helper for the explanation's branch order: every multiple of 100 is a multiple of 4. |
| `LeapYear.LeapYearExamples` | tests/test_leap_year.py:8-12 | 2024 and 2000 are leap; 1900 and 2023 are not. |
| `LeapYear.FormatResult` | leap_year.py:30-32 | The result line starts with the year's decimal rendering. |
| `LeapYear.ReadFormatResult` | leap_year.py:32 | Reading the line back gives the year. The line says `високосный` exactly when the year is leap and `невисокосный` otherwise. |
| `LeapYear.LeapAfterCentury` | leap_year.py:45-48 | Four years after a multiple of 4 that is not leap comes a leap year. |
| `LeapYear.NextLeapIsLeast` | leap_year.py:45-48 | `NextLeap(y)` is a leap year `1..8` years after `y`, and no year strictly between is leap. |
| `LeapYear.NextLeapExamples` | tests/test_leap_year.py:15-24 | 2023→2024, 2000→2004 and 2024→2028; 1896→1904 is the 8-year gap. |
| `LeapYear.NextLeapYear` | leap_year.py:35-48 | The loop ends, and it returns the least leap year greater than `year`, at most 8 years later; this is `NextLeap(year)`. |
| `LeapYear.PrevLeapAbsent` | leap_year.py:61-64 | `PrevLeap(y)` is `None` exactly when no year in `1..y-1` is leap. |
| `LeapYear.LeapBeforeCentury` | leap_year.py:61-64 | Four years before a positive multiple of 4 that is not leap comes a positive leap year. |
| `LeapYear.PrevLeapIsGreatest` | leap_year.py:61-64 | A present `PrevLeap(y)` is the greatest leap year in `1..y-1`, at most 8 years before `y`. |
| `LeapYear.PrevLeapExamples` | tests/test_leap_year.py:15-24 | 2023→2020, 2001→2000, 2024→2020 and 1904→1896; 5→4; 4, 1 and -7 give `None`. |
| `LeapYear.PreviousLeapYear` | leap_year.py:51-64 | The loop ends. It returns `None` exactly when `1..year-1` holds no leap year, which happens exactly when `year <= 4`. Otherwise it returns the greatest positive leap year below `year`. Year 0 is never returned. |
| `LeapYear.ParseYears` | leap_year.py:67-79 | Success exactly when every string parses; the list then has the same length and order, and each element is the parse of its string. On failure, the error names the first string that does not parse, and no list is returned. |
| `Partition.CountsAddUp` | app.py:54-63 | Every outcome is counted once, in the results or in the errors. |
| `Partition.PositionsExact` | app.py:54-63 | The positions listed for a side are exactly the entries whose outcome is on that side. |
| `Partition.OksAtPositions` | app.py:57-61 | The k-th result comes from the k-th successful entry, so results keep input order. |
| `Partition.ErrsAtPositions` | app.py:62-63 | The k-th error comes from the k-th failed entry, so errors keep input order. |
| `Partition.AllSucceed` | app.py:54-61 | When every entry succeeds, the results are all of them, in order, and there are no errors. |
| `App.Classify` | app.py:34-39 | The record holds the year, `is_leap_year(year)` and `format_result(year)`. |
| `App.ParseYearParam` | app.py:20-32 | A missing or blank value gives `Год не указан`. A non-blank value whose strip `int()` rejects gives `Год должен быть числом`. Otherwise the result is `int(value.strip())`. Each of the three outcomes is an if-and-only-if. |
| `App.CheckLeapYear` | app.py:18-39 | The handler fails exactly when validation fails, with that error. Otherwise its record holds `int(value.strip())`, `is_leap == is_leap_year(year)` and `format_result(year)`. |
| `App.CheckLeapYearShown` | tests/test_leap_year.py:27-32 | The decimal rendering of any year is accepted and classified by the rule. |
| `App.CheckLeapYearRefusesBlank` | app.py:24-27 | A missing year and `"  "` give `Год не указан`. |
| `App.CheckLeapYearRefusesLetters` | app.py:29-32 | `"abc"` gives `Год должен быть числом`. |
| `App.CheckToken` | app.py:55-63 | An entry succeeds exactly when `int(str(entry).strip())` converts it. Its record then holds that value, the rule's verdict and `format_result(year)`. Otherwise the error is `Некорректное значение года: ` followed by the raw entry. |
| `App.Successes` | app.py:54-61 | The records of the entries that convert, in input order; `App.BatchSortsEveryEntry` states what they are. |
| `App.Errors` | app.py:62-63 | The messages of the entries that do not convert, in input order; `App.BatchSortsEveryEntry` states what they are. |
| `App.BatchSortsEveryEntry` | app.py:54-63 | The results and errors together have one item per entry. An entry is a result exactly when it converts. The k-th result and the k-th error are the records of the k-th converting and the k-th failing entries. |
| `App.SuccessesFollowRule` | app.py:56-61 | Every result's `is_leap` equals `is_leap_year(year)`. |
| `App.CheckMultiple` | app.py:43-70 | A missing or empty list is refused with `Годы не указаны`. Otherwise the loop's lists equal `Successes` and `Errors`, `total` counts results only, `error_count` counts errors, and together they count every entry. |
| `App.CheckTokenShown` | app.py:56 | A rendered year is accepted and classified. |
| `App.BatchOfShownYears` | tests/test_leap_year.py:35-43 | A batch of rendered years is classified completely, in order, with no errors. |
| `App.AdjacentLeapYears` | app.py:74-102 | The same validation as the single-year handler. `next_leap_year` is the least leap year above the year, and `next_leap_years_away` is the distance to it, in `1..8`. `previous_leap_year` is `PrevLeap(year)`. `previous_leap_years_away` is present exactly when the previous year is; it equals `year - prev` and is in `1..8`. |
| `Client.IsJsSpace` | static/script.js:4 | The ECMAScript whitespace and line terminators that `trim()` and `\s` match. |
| `Client.JsTrim` | static/script.js:4 | `String.prototype.trim()`: `Common.Trim` by `IsJsSpace`. |
| `Client.SplitOnSeparators` | static/script.js:53 | `split(/[,\s]+/)`: the pieces between maximal separator runs, with an empty piece at either end when the text starts or ends with a separator. |
| `Client.DropEmpty` | static/script.js:54 | `filter(y => y.length > 0)`. |
| `Client.Tokenize` | static/script.js:52-54 | The split followed by the filter; the lemmas below state what it returns. |
| `Client.TokensAreWords` | static/script.js:52-54 | Every token is non-empty and holds no comma or whitespace. |
| `Client.TokenizeWeave` | static/script.js:52-54 | Tokens laid out with separator runs around them, non-empty between them, are given back exactly, in order. |
| `Client.TokenizeDecomposes` | static/script.js:52-54 | Every string is its tokens laid out between its separator runs. The tokens are therefore exactly the maximal separator-free runs. |
| `Client.TokenizeSkipsSeparators` | static/script.js:53 | Separators in front of any text yield no token. |
| `Client.TokenizeIgnoresTrailingSeparators` | static/script.js:53 | Separators after any text yield no token. |
| `Client.TokenizeIgnoresTrim` | static/script.js:44-54 | Splitting the trimmed field gives the same tokens as splitting the raw field. |
| `Client.BlankHasNoTokens` | static/script.js:44-54 | A blank field holds no token. |
| `Client.CheckYear` | static/script.js:4-9 | The form is refused with `Пожалуйста, введите год` exactly when the field is blank after `trim()`. Otherwise it sends the trimmed text, which is non-empty. |
| `Client.CheckMultiple` | static/script.js:44-54 | The form is refused with `Пожалуйста, введите хотя бы один год` exactly when the field is blank after `trim()`. Otherwise it sends the field's tokens. |
| `Client.CheckAdjacentLeapYears` | static/script.js:83-88 | The form is refused with `Пожалуйста, введите год` exactly when the field is blank after `trim()`. Otherwise it sends the trimmed text as an adjacent-years query. |
| `Client.TruncRem` | static/script.js:276-277 | JavaScript's `%` gives a remainder with the sign of the dividend; its magnitude is the magnitude of the dividend modulo the divisor. |
| `Client.TruncRemZero` | static/script.js:264-268 | The zero tests by 4, 100 and 400 agree between the truncated and the Euclidean remainder. |
| `Client.GetPluralForm` | static/script.js:275-286 | The result is always one of the three forms. |
| `Client.PluralFormFollowsRussianRule` | static/script.js:275-286 | For n ≥ 0, the choice agrees with the Russian rule as grammars state it: endings 11–14 take "many", then the last digit decides. |
| `Client.PluralFormChoice` | static/script.js:279-285 | For n ≥ 0 and distinct forms: `form1` exactly when `n%10 == 1` and `n%100 != 11`; `form2` exactly when `n%10` is in `2..4` and `n%100` is not in `12..14`; `form5` otherwise. |
| `Client.PluralFormByLastTwoDigits` | static/script.js:276-277 | For n ≥ 0, the choice depends only on `n % 100`. |
| `Client.NegativeTakesMany` | static/script.js:276-284 | Every negative number takes `form5`. |
| `Client.PluralFormExamples` | static/script.js:279-285 | 1, 21 and 101 take `form1`; 11 to 14 take `form5`; 2 takes `form2`, and 8 takes `form5`. |
| `Client.ExplanationOf` | static/script.js:263-272 | The `÷ 400` or `÷ 4` branch is taken exactly when the server's rule says leap. The `÷ 100` branch is taken exactly for the non-leap century years, and the last branch exactly when 4 does not divide the year. Every printed quotient is exact. |
| `Client.GetLeapYearExplanation` | static/script.js:263-273 | The text starts with the year, and it ends with a remark in parentheses exactly when the year is leap. |
| `EndToEnd.SubmitYear` | static/script.js:4-33 | Blank input is refused by the script. Otherwise the answer is a success exactly when `int()` accepts the Python strip of the trimmed text; a success classifies that value and carries its `format_result` line. Any other answer is the server's validation error, and `Год не указан` comes exactly when the trimmed text is non-empty to JavaScript but blank to Python. |
| `EndToEnd.SubmitShownYear` | static/script.js:4-33 | A typed rendered year comes back classified by the rule. |
| `EndToEnd.WhitespaceClassesDiffer` | app.py:24-27 | U+001C passes the script's guard, and the server answers `Год не указан`. |
| `EndToEnd.SubmitMultiple` | static/script.js:44-72 | Blank input is refused by the script. Input that is not blank but has no token is refused by the server with `Годы не указаны`. Otherwise the answer is a success: the server's lists are `Successes` and `Errors` of the field's tokens, `total` and `error_count` are their lengths, and together they count every token. |
| `EndToEnd.SubmitShownYears` | static/script.js:52-62 | Rendered years typed with any commas and whitespace around and between them reach the server as exactly those renderings, in order, and each one is classified. |
| `EndToEnd.OnlyCommasGiveNoYears` | static/script.js:46-54 | A field of commas passes the guard and sends an empty list; `EndToEnd.SubmitMultiple` states that the server refuses it. |
| `EndToEnd.SubmitAdjacent` | static/script.js:83-103 | Blank input is refused by the script. Otherwise the answer is a success exactly when `int()` accepts the Python strip of the trimmed text, and any other answer is the server's validation error; `Год не указан` comes exactly when the trimmed text is blank to Python only. A success reports the verdict, the `format_result` line, `NextLeap` and `PrevLeap` of that value, and both distances, each in `1..8`; the previous distance is present exactly when the previous year is. |
| `EndToEnd.NextLeapZero` | static/script.js:200 | For the years -4 to -1 the next leap year is 0, which the script's truthiness test would not display. |

## Left out

- Flask routing, `request`/`jsonify`, HTTP status codes and `app.run`. A handler's answer is a `Result`: an error message stands for a 400 response.
- The body of a POST request that is not a JSON object, a `year` that is not a string, a `years` that is a JSON string rather than a list (the loop would then run over its characters), and entries of `years` that are not strings. The model takes strings only, and `str(entry)` is the identity on strings.
- `int()` on non-ASCII decimal digits (Arabic-Indic and others). The grammar accepts ASCII digits only.
- `main` in `leap_year.py`. It is command-line I/O: `argparse`, `print` and the exit code.
- The DOM rendering functions `showSuccess`, `showMultipleResults`, `showAdjacentLeapYears` and `showError`. They are presentation. The truthiness tests they make on the previous and next year are noted by `EndToEnd.NextLeapZero` only.
- `fetch`, `async` and `URL`, including the unused GET request in `checkYear`. This is network I/O. `EndToEnd` passes the sent text to the handler directly.
- `showRandomSuperstition` and the keyboard listeners. They are random or UI-only.
- JavaScript numbers are doubles. Years beyond 2^53 are not exact in the browser, and the model uses unbounded integers throughout.
- PyText.ParseInt: does not model the limit of 4300 digits that CPython 3.11 and later put on `int()` of a string by default. Above it, `int()` raises `ValueError`, so `check_leap_year` answers `Год должен быть числом` and `parse_years` fails, while the model converts.
- PyText.ShowInt: does not model the same limit on `str()` of an integer with more than 4300 digits, which raises `ValueError` in `format_result`.
- Client.GetLeapYearExplanation: renders the year with `ShowInt`, whereas JavaScript writes a number of magnitude 10^21 or more in exponent notation (`1e+21`).
- Some of the tests' string-level examples are stated through general lemmas rather than on literal strings. The test query `year=2024` and the payload `['2023', '2024', '1900']` follow from `PyText.ShowIntExamples`, `PyText.ShowIntCenturyExamples`, `App.CheckLeapYearShown` and `App.BatchOfShownYears`. The adjacent query `year=2023` follows from `App.AdjacentLeapYears`, `LeapYear.NextLeapExamples` and `LeapYear.PrevLeapExamples`.
