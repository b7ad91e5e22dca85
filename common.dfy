/** Small shared vocabulary: an optional value, a success-or-error value, and
    trimming of a string by a whitespace class (Python's `str.strip()` and
    JavaScript's `String.prototype.trim()` differ only in that class). */
module Common {

  datatype Option<+T> = None | Some(value: T) {
    /** The value, or `default` when there is none (Python's `dict.get(key, default)`). */
    function GetOr(default: T): T {
      if Some? then value else default
    }
  }

  datatype Result<+R, +E> = Success(value: R) | Failure(error: E)

  /** True when every character of `s` belongs to the class `cls` (for a
      whitespace class: `s` is blank). */
  predicate AllChars(s: string, cls: char -> bool) {
    forall i :: 0 <= i < |s| ==> cls(s[i])
  }

  /** The length of the longest prefix of `s` inside the class `cls`. */
  function LeadingRun(s: string, cls: char -> bool): (n: nat)
    ensures n <= |s|
    ensures forall i :: 0 <= i < n ==> cls(s[i])
    ensures n == |s| || !cls(s[n])
  {
    if |s| > 0 && cls(s[0]) then 1 + LeadingRun(s[1..], cls) else 0
  }

  /** A run inside the class followed by more text: the leading run of the
      whole is that run plus the leading run of the rest. */
  lemma {:induction false} LeadingRunConcat(a: string, b: string, cls: char -> bool)
    requires AllChars(a, cls)
    ensures LeadingRun(a + b, cls) == |a| + LeadingRun(b, cls)
  {
    if |a| > 0 {
      assert (a + b)[1..] == a[1..] + b;
      LeadingRunConcat(a[1..], b, cls);
    } else {
      assert a + b == b;
    }
  }

  /** Drops the trailing whitespace of `s`. */
  function TrimEnd(s: string, ws: char -> bool): (r: string)
    ensures |r| <= |s| && r == s[..|r|]
    ensures forall i :: |r| <= i < |s| ==> ws(s[i])
    ensures r == [] || !ws(r[|r| - 1])
  {
    if |s| > 0 && ws(s[|s| - 1]) then TrimEnd(s[..|s| - 1], ws) else s
  }

  /** Drops whitespace at both ends: the result is the slice of `s` that starts
      after its leading whitespace, with only whitespace after it and no
      whitespace at either of its ends. */
  function Trim(s: string, ws: char -> bool): (r: string)
    ensures var a := LeadingRun(s, ws);
            && a + |r| <= |s| && r == s[a..a + |r|]
            && (forall i :: a + |r| <= i < |s| ==> ws(s[i]))
    ensures r == [] || (!ws(r[0]) && !ws(r[|r| - 1]))
  {
    var a := LeadingRun(s, ws);
    var left := s[a..];
    var r := TrimEnd(left, ws);
    assert forall i :: a + |r| <= i < |s| ==> s[i] == left[i - a];
    r
  }

  /** A string is its leading whitespace, its trim and its trailing whitespace. */
  lemma TrimSurroundings(s: string, ws: char -> bool) returns (lead: string, tail: string)
    ensures s == lead + (Trim(s, ws) + tail)
    ensures AllChars(lead, ws) && AllChars(tail, ws)
  {
    var a := LeadingRun(s, ws);
    var r := Trim(s, ws);
    lead, tail := s[..a], s[a + |r|..];
    assert s[a..] == r + tail;
    assert s == lead + s[a..];
  }

  /** Trimming gives the empty string exactly when the input is blank. */
  lemma TrimEmptyIffBlank(s: string, ws: char -> bool)
    ensures Trim(s, ws) == [] <==> AllChars(s, ws)
  {
  }

  /** A string with no whitespace at either end is its own trim. */
  lemma TrimUnchanged(s: string, ws: char -> bool)
    requires s == [] || (!ws(s[0]) && !ws(s[|s| - 1]))
    ensures Trim(s, ws) == s
  {
    assert LeadingRun(s, ws) == 0;
    assert s[0..] == s;
  }

  /** Two whitespace classes that agree on every character of `s` trim it alike. */
  lemma TrimSameClass(s: string, a: char -> bool, b: char -> bool)
    requires forall i :: 0 <= i < |s| ==> a(s[i]) == b(s[i])
    ensures Trim(s, a) == Trim(s, b)
  {
    var k := LeadingRun(s, a);
    assert LeadingRun(s, b) == k;
  }
}
