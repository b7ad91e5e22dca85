/** The Python built-ins the server's handlers lean on: `str.strip()`, the
    string-to-integer conversion `int(s)` and the decimal rendering of an
    integer used inside f-strings.  `int(s)` is modelled by an explicit grammar:
    optional surrounding whitespace (a narrower class than the one `strip()`
    removes), an optional sign, then decimal digits in which single underscores
    may separate digits. */
module PyText {
  import opened Common

  /** Python's `str.isspace()` for one character. */
  predicate IsSpace(c: char) {
    var k := c as int;
    || (0x09 <= k <= 0x0D) || (0x1C <= k <= 0x20)
    || k == 0x85 || k == 0xA0 || k == 0x1680
    || (0x2000 <= k <= 0x200A) || k == 0x2028 || k == 0x2029
    || k == 0x202F || k == 0x205F || k == 0x3000
  }

  /** The four ASCII information separators U+001C–U+001F: whitespace to
      `str.isspace()`, but not to `bytes.isspace()`. */
  predicate IsInfoSeparator(c: char) {
    0x1C <= c as int <= 0x1F
  }

  /** The characters `int()` skips around the number.  `int()` keeps every
      ASCII character as it is, turns non-ASCII whitespace into a space, and
      then skips ASCII whitespace only; so this is Python's whitespace without
      the information separators. */
  predicate IsIntSpace(c: char) {
    IsSpace(c) && !IsInfoSeparator(c)
  }

  /** Python's `s.strip()` with no argument. */
  function Strip(s: string): string {
    Trim(s, IsSpace)
  }

  predicate IsDigit(c: char) {
    '0' <= c <= '9'
  }

  function DigitValue(c: char): (d: nat)
    requires IsDigit(c)
    ensures d < 10
  {
    c as int - '0' as int
  }

  function DigitChar(d: nat): (c: char)
    requires d < 10
    ensures IsDigit(c) && DigitValue(c) == d
  {
    ('0' as int + d) as char
  }

  /** The characters `int()` accepts between the sign and the end. */
  predicate DigitsOrUnderscores(s: string) {
    forall i :: 0 <= i < |s| ==> IsDigit(s[i]) || s[i] == '_'
  }

  /** A digit string `int()` accepts: starts and ends with a digit, and no two
      underscores are adjacent, so each underscore sits between two digits. */
  predicate IsDigitString(s: string) {
    && |s| > 0 && IsDigit(s[0]) && IsDigit(s[|s| - 1])
    && DigitsOrUnderscores(s)
    && (forall i :: 0 < i < |s| && s[i] == '_' ==> IsDigit(s[i - 1]))
  }

  /** The value of a digit string, underscores ignored. */
  function DigitsValue(s: string): nat
    requires DigitsOrUnderscores(s)
  {
    if |s| == 0 then 0
    else
      var init := s[..|s| - 1];
      if s[|s| - 1] == '_' then DigitsValue(init) else 10 * DigitsValue(init) + DigitValue(s[|s| - 1])
  }

  /** The number `int()` reads once the surrounding whitespace is gone: an
      optional sign, then a digit string. */
  function ParseSignedDigits(t: string): Option<int> {
    if |t| > 0 && (t[0] == '+' || t[0] == '-') then
      var digits := t[1..];
      if IsDigitString(digits) then
        var v: int := DigitsValue(digits);
        Some(if t[0] == '-' then -v else v)
      else None
    else if IsDigitString(t) then Some(DigitsValue(t))
    else None
  }

  /** Python's `int(s)` on a string, base 10: `None` where Python raises
      ValueError.  A string that is blank to `str.isspace()` never converts. */
  function ParseInt(s: string): (r: Option<int>)
    ensures r.Some? ==> !AllChars(s, IsSpace)
  {
    ParseSignedDigits(Trim(s, IsIntSpace))
  }

  /** What `strip()` leaves has no whitespace at its ends, so `int()` of it
      reads the sign and digits directly. */
  lemma ParseIntOfStripped(s: string)
    ensures ParseInt(Strip(s)) == ParseSignedDigits(Strip(s))
  {
    TrimUnchanged(Strip(s), IsIntSpace);
  }

  /** Stripping before `int()` changes nothing for a string without the
      information separators, the only characters `strip()` removes and
      `int()` does not skip. */
  lemma ParseIntStrip(s: string)
    requires forall i :: 0 <= i < |s| ==> !IsInfoSeparator(s[i])
    ensures ParseInt(Strip(s)) == ParseInt(s)
  {
    TrimSameClass(s, IsSpace, IsIntSpace);
    ParseIntOfStripped(s);
  }

  /** U+001C in front of a number: `strip()` removes it, `int()` refuses it;
      U+0085 is skipped by `int()` like any non-ASCII whitespace. */
  lemma ParseIntWhitespaceClass()
    ensures ParseInt([0x1C as char, '7']) == None
    ensures ParseInt(Strip([0x1C as char, '7'])) == Some(7)
    ensures ParseInt([0x85 as char, '7']) == Some(7)
  {
    var fs := [0x1C as char, '7'];
    TrimUnchanged(fs, IsIntSpace);
    assert !IsDigitString(fs);
    assert fs[1..] == "7" && "7"[..0] == "" && DigitsValue("7") == 7;
    assert LeadingRun(fs, IsSpace) == 1;
    TrimUnchanged("7", IsSpace);
    TrimUnchanged("7", IsIntSpace);
    var nel := [0x85 as char, '7'];
    assert nel[1..] == "7";
    assert LeadingRun(nel, IsIntSpace) == 1;
  }

  /** The decimal rendering of a natural number, without leading zeros. */
  function ShowNat(n: nat): (s: string)
    ensures |s| > 0 && forall i :: 0 <= i < |s| ==> IsDigit(s[i])
    ensures |s| > 1 ==> s[0] != '0'
  {
    if n < 10 then [DigitChar(n)] else ShowNat(n / 10) + [DigitChar(n % 10)]
  }

  /** Python's `str(n)` (and an f-string's `{n}`) for an integer. */
  function ShowInt(n: int): (s: string)
    ensures |s| > 0 && IsDigit(s[|s| - 1])
    ensures forall i :: 0 <= i < |s| ==> IsDigit(s[i]) || (i == 0 && s[i] == '-')
    ensures s[0] == '-' <==> n < 0
    ensures var d := if n < 0 then s[1..] else s; |d| > 1 ==> d[0] != '0'
    ensures s == "0" <==> n == 0
  {
    if n < 0 then "-" + ShowNat(-n) else ShowNat(n)
  }

  lemma {:induction false} DigitsValueShowNat(n: nat)
    ensures DigitsOrUnderscores(ShowNat(n)) && DigitsValue(ShowNat(n)) == n
  {
    if n >= 10 {
      var s := ShowNat(n);
      assert s[..|s| - 1] == ShowNat(n / 10);
      DigitsValueShowNat(n / 10);
    }
  }

  /** `int(str(n)) == n`: every integer's rendering parses back to it. */
  lemma ParseShowInt(n: int)
    ensures ParseInt(ShowInt(n)) == Some(n)
  {
    var s := ShowInt(n);
    TrimUnchanged(s, IsIntSpace);
    var m: nat := if n < 0 then -n else n;
    var digits := ShowNat(m);
    DigitsValueShowNat(m);
    assert IsDigitString(digits);
    if n < 0 {
      assert s[0] == '-' && s[1..] == digits;
    } else {
      assert s == digits && !(s[0] == '+' || s[0] == '-');
    }
  }

  /** A rendering has no whitespace to strip. */
  lemma StripShowInt(n: int)
    ensures Strip(ShowInt(n)) == ShowInt(n)
  {
    TrimUnchanged(ShowInt(n), IsSpace);
  }

  /** Fixed renderings, as they appear in the tests' years. */
  lemma ShowIntExamples()
    ensures ShowInt(2024) == "2024" && ShowInt(2023) == "2023"
  {
  }

  /** The renderings of the two century years of the tests. */
  lemma ShowIntCenturyExamples()
    ensures ShowInt(2000) == "2000" && ShowInt(1900) == "1900"
  {
  }

  /** A negative number is rendered with a minus sign, zero as one digit. */
  lemma ShowIntSignExamples()
    ensures ShowInt(-12) == "-12" && ShowInt(0) == "0"
  {
  }

  /** `int()` on the decimal strings of the tests' years. */
  lemma ParseIntDecimalExamples()
    ensures ParseInt("2024") == Some(2024) && ParseInt("2023") == Some(2023)
    ensures ParseInt("2000") == Some(2000) && ParseInt("1900") == Some(1900)
    ensures ParseInt("-12") == Some(-12)
  {
    ShowIntExamples();
    ShowIntCenturyExamples();
    ShowIntSignExamples();
    ParseShowInt(2024);
    ParseShowInt(2023);
    ParseShowInt(2000);
    ParseShowInt(1900);
    ParseShowInt(-12);
  }

  /** `int()` accepts surrounding whitespace and an explicit plus sign. */
  lemma ParseIntSpaceAndSignExamples()
    ensures ParseInt(" 7\n") == Some(7) && ParseInt("+7") == Some(7)
  {
    assert "7"[..0] == "" && DigitsValue("7") == 7;
    assert Trim(" 7\n", IsIntSpace) == "7" by {
      assert " 7\n"[1..] == "7\n" && "7\n"[..1] == "7";
      assert LeadingRun(" 7\n", IsIntSpace) == 1;
    }
    TrimUnchanged("+7", IsIntSpace);
    assert "+7"[1..] == "7";
  }

  /** `int()` accepts an underscore between digits. */
  lemma ParseIntUnderscoreExample()
    ensures ParseInt("1_000") == Some(1000)
  {
    var s := "1_000";
    assert s[..4] == "1_00" && s[..4][..3] == "1_0" && s[..4][..3][..2] == "1_" && s[..4][..3][..2][..1] == "1";
    assert DigitsValue("1") == 1;
    assert DigitsValue("1_") == 1;
    assert DigitsValue("1_0") == 10;
    assert DigitsValue(s) == 1000;
    TrimUnchanged(s, IsIntSpace);
  }

  /** `int()` rejects an empty string, a lone sign and a space after the sign. */
  lemma ParseIntRejectsIncomplete()
    ensures ParseInt("") == None && ParseInt("-") == None && ParseInt("- 1") == None
  {
    TrimUnchanged("-", IsIntSpace);
    TrimUnchanged("- 1", IsIntSpace);
    assert "-"[1..] == "" && "- 1"[1..] == " 1";
  }

  /** `int()` rejects a leading, trailing or doubled underscore. */
  lemma ParseIntRejectsMisplacedUnderscore()
    ensures ParseInt("_1") == None && ParseInt("1_") == None && ParseInt("1__0") == None
  {
    TrimUnchanged("_1", IsIntSpace);
    TrimUnchanged("1_", IsIntSpace);
    TrimUnchanged("1__0", IsIntSpace);
    assert !IsDigitString("1__0") by {
      assert "1__0"[2] == '_' && "1__0"[1] == '_';
    }
  }

  /** `int()` rejects a letter anywhere. */
  lemma ParseIntRejectsLetters()
    ensures ParseInt("abc") == None && ParseInt("20x4") == None
  {
    TrimUnchanged("abc", IsIntSpace);
    TrimUnchanged("20x4", IsIntSpace);
    assert !IsDigitString("20x4") by {
      assert "20x4"[2] == 'x';
    }
  }
}
