/**
 The IPv4 format check of the updater: `re.match(r"\b(?:[0-9]{1,3}\.){3}[0-9]{1,3}\b", s)`.
 The pattern is anchored at the start of `s` only, has no octet range check, and
 ends in a word boundary rather than at the end of the string.

 Two definitions are given: `PatternMatches` follows the regular expression
 literally, trying every group width as the regex engine backtracks; `IsValidIp`
 is the recogniser, scanning maximal digit runs. `IsValidIpMatchesPattern` proves
 they accept the same strings.
 */
module IpFormat {

  /** `[0-9]`: ASCII digits only. */
  predicate IsDigit(c: char) {
    '0' <= c <= '9'
  }

  /** `\w`, restricted to ASCII. */
  predicate IsWordChar(c: char) {
    IsDigit(c) || ('a' <= c <= 'z') || ('A' <= c <= 'Z') || c == '_'
  }

  predicate AllDigits(s: string) {
    forall i :: 0 <= i < |s| ==> IsDigit(s[i])
  }

  /** Position `p` lies inside `s` and holds a word character. */
  predicate WordAt(s: string, p: int) {
    0 <= p < |s| && IsWordChar(s[p])
  }

  /** `\b` at position `p`: a word character on exactly one side of `p`. */
  predicate BoundaryAt(s: string, p: int) {
    WordAt(s, p - 1) != WordAt(s, p)
  }

  // ---------------------------------------------------------------------------
  // The pattern, read literally

  /**
   `k` groups of the pattern match at the start of `s`: `k - 1` groups
   `[0-9]{1,3}\.` then a final `[0-9]{1,3}\b`.
   */
  predicate GroupsMatch(s: string, k: nat)
    requires k >= 1
    decreases k, 1
  {
    GroupOfWidth(s, 1, k) || GroupOfWidth(s, 2, k) || GroupOfWidth(s, 3, k)
  }

  /** The first of `k` groups matches with exactly `n` digits and the rest of the pattern matches after it. */
  predicate GroupOfWidth(s: string, n: nat, k: nat)
    requires 1 <= n <= 3 && k >= 1
    decreases k, 0
  {
    && n <= |s|
    && AllDigits(s[..n])
    && if k == 1 then BoundaryAt(s, n)
       else n < |s| && s[n] == '.' && GroupsMatch(s[n + 1..], k - 1)
  }

  /** `re.match` of the whole pattern succeeds on `s`. */
  predicate PatternMatches(s: string) {
    BoundaryAt(s, 0) && GroupsMatch(s, 4)
  }

  // ---------------------------------------------------------------------------
  // The recogniser

  /** Length of the run of digits that `s` starts with. */
  function DigitRun(s: string): (n: nat)
    ensures n <= |s| && AllDigits(s[..n])
    ensures n == |s| || !IsDigit(s[n])
  {
    if |s| > 0 && IsDigit(s[0]) then
      var n := 1 + DigitRun(s[1..]);
      assert s[..n] == [s[0]] + s[1..][..n - 1];
      n
    else 0
  }

  /** `k` groups follow at the start of `s`, each a whole digit run of length 1 to 3. */
  predicate ScanGroups(s: string, k: nat)
    requires k >= 1
    decreases k
  {
    var n := DigitRun(s);
    && 1 <= n <= 3
    && if k == 1 then n == |s| || !IsWordChar(s[n])
       else n < |s| && s[n] == '.' && ScanGroups(s[n + 1..], k - 1)
  }

  /** `is_valid_ip(s)`. */
  predicate IsValidIp(s: string) {
    ScanGroups(s, 4)
  }

  // ---------------------------------------------------------------------------
  // Agreement

  /** A group can only end where its digit run ends: a shorter width is followed by a digit. */
  lemma OnlyWholeRun(s: string, n: nat, k: nat)
    requires 1 <= n <= 3 && k >= 1
    requires GroupOfWidth(s, n, k)
    ensures n == DigitRun(s)
  {
  }

  lemma {:induction false} ScanAgreesWithPattern(s: string, k: nat)
    requires k >= 1
    ensures ScanGroups(s, k) <==> GroupsMatch(s, k)
    decreases k
  {
    var n := DigitRun(s);
    if k > 1 && n < |s| {
      ScanAgreesWithPattern(s[n + 1..], k - 1);
    }
    if GroupsMatch(s, k) {
      if GroupOfWidth(s, 1, k) {
        OnlyWholeRun(s, 1, k);
      } else if GroupOfWidth(s, 2, k) {
        OnlyWholeRun(s, 2, k);
      } else {
        OnlyWholeRun(s, 3, k);
      }
    }
    if ScanGroups(s, k) {
      assert WordAt(s, n - 1) by { assert s[..n][n - 1] == s[n - 1]; }
      assert GroupOfWidth(s, n, k);
    }
  }

  /** The recogniser accepts exactly the strings on which the regular expression matches. */
  lemma IsValidIpMatchesPattern(s: string)
    ensures IsValidIp(s) <==> PatternMatches(s)
  {
    ScanAgreesWithPattern(s, 4);
    if IsValidIp(s) {
      assert WordAt(s, 0) by { assert s[..DigitRun(s)][0] == s[0]; }
    }
  }

  /**
   Text after the address is ignored once a non-word character (or the end)
   follows the fourth group: anything appended after such a point keeps the
   string valid.
   */
  lemma {:induction false} TrailingTextIgnored(s: string, t: string, k: nat)
    requires k >= 1 && ScanGroups(s, k)
    requires |t| == 0 || !IsWordChar(t[0])
    ensures ScanGroups(s + t, k)
    decreases k
  {
    var n := DigitRun(s);
    DigitRunExtends(s, t);
    if k > 1 {
      assert (s + t)[n + 1..] == s[n + 1..] + t;
      TrailingTextIgnored(s[n + 1..], t, k - 1);
    } else if n < |s| {
      assert (s + t)[n] == s[n];
    }
  }

  /** Appending text that does not start with a digit leaves the leading digit run alone; otherwise the run is a prefix. */
  lemma {:induction false} DigitRunExtends(s: string, t: string)
    requires |t| == 0 || !IsWordChar(t[0])
    ensures DigitRun(s + t) == DigitRun(s)
    decreases |s|
  {
    if |s| > 0 {
      assert (s + t)[1..] == s[1..] + t;
      DigitRunExtends(s[1..], t);
    } else {
      assert s + t == t;
    }
  }

  /** A leading digit run of known length. */
  lemma {:induction false} DigitRunIs(s: string, n: nat)
    requires n <= |s| && AllDigits(s[..n])
    requires n == |s| || !IsDigit(s[n])
    ensures DigitRun(s) == n
    decreases n
  {
    if n > 0 {
      assert s[..n][0] == s[0];
      assert s[1..][..n - 1] == s[1..n];
      assert forall i :: 0 <= i < n - 1 ==> s[1..n][i] == s[..n][i + 1];
      DigitRunIs(s[1..], n - 1);
    }
  }

  /** A group of 1 to 3 digits. */
  predicate IsGroup(g: string) {
    1 <= |g| <= 3 && AllDigits(g)
  }

  /**
   Four dot-separated groups of 1 to 3 digits, followed by the end of the
   string or a non-word character, are accepted whatever comes after:
   there is no octet range check and trailing text is not looked at.
   */
  lemma ValidFromGroups(a: string, b: string, c: string, d: string, rest: string)
    requires IsGroup(a) && IsGroup(b) && IsGroup(c) && IsGroup(d)
    requires |rest| == 0 || !IsWordChar(rest[0])
    ensures IsValidIp(a + "." + b + "." + c + "." + d + rest)
  {
    LastGroup(d, rest);
    LeadingGroups(a, b, c, d + rest);
    assert a + "." + b + "." + c + "." + d + rest == a + "." + b + "." + c + "." + (d + rest);
  }

  /**
   A fourth group that runs straight into a word character is rejected: a
   letter or `_` breaks the final `\b`, and a digit after three digits makes
   the group too long.
   */
  lemma WordAfterFourthGroupRejected(a: string, b: string, c: string, d: string, rest: string)
    requires IsGroup(a) && IsGroup(b) && IsGroup(c) && IsGroup(d)
    requires |rest| > 0 && IsWordChar(rest[0])
    requires |d| == 3 || !IsDigit(rest[0])
    ensures !IsValidIp(a + "." + b + "." + c + "." + d + rest)
  {
    var s := d + rest;
    assert s[..|d|] == d && s[|d|] == rest[0];
    if IsDigit(rest[0]) {
      assert s[..4] == s[..|d|] + [s[|d|]];
      LongRunRejected(s, 1);
    } else {
      DigitRunIs(s, |d|);
    }
    LeadingGroups(a, b, c, s);
    assert a + "." + b + "." + c + "." + d + rest == a + "." + b + "." + c + "." + s;
  }

  /** A leading group of four or more digits is rejected. */
  lemma LongRunRejected(s: string, k: nat)
    requires k >= 1 && |s| >= 4 && AllDigits(s[..4])
    ensures !ScanGroups(s, k)
  {
  }

  /** A string that does not start with a digit, the empty string among them, is rejected. */
  lemma NoLeadingDigitRejected(s: string)
    requires |s| == 0 || !IsDigit(s[0])
    ensures !IsValidIp(s)
  {
  }

  /** Three leading groups are accepted exactly when the rest of the string is accepted as a single group. */
  lemma LeadingGroups(a: string, b: string, c: string, s: string)
    requires IsGroup(a) && IsGroup(b) && IsGroup(c)
    ensures IsValidIp(a + "." + b + "." + c + "." + s) <==> ScanGroups(s, 1)
  {
    NextGroup(c, s, 1);
    NextGroup(b, c + "." + s, 2);
    NextGroup(a, b + "." + (c + "." + s), 3);
    assert a + "." + b + "." + c + "." + s == a + "." + (b + "." + (c + "." + s));
  }

  lemma LastGroup(d: string, rest: string)
    requires IsGroup(d)
    requires |rest| == 0 || !IsWordChar(rest[0])
    ensures ScanGroups(d + rest, 1)
  {
    var s := d + rest;
    assert s[..|d|] == d;
    DigitRunIs(s, |d|);
  }

  lemma NextGroup(g: string, s: string, k: nat)
    requires IsGroup(g) && k >= 1
    ensures ScanGroups(g + "." + s, k + 1) <==> ScanGroups(s, k)
  {
    var t := g + "." + s;
    assert t[..|g|] == g && t[|g|] == '.' && t[|g| + 1..] == s;
    DigitRunIs(t, |g|);
  }

  lemma AcceptedExample(s: string, a: string, b: string, c: string, d: string, rest: string)
    requires IsGroup(a) && IsGroup(b) && IsGroup(c) && IsGroup(d)
    requires |rest| == 0 || !IsWordChar(rest[0])
    requires s == a + "." + b + "." + c + "." + d + rest
    ensures IsValidIp(s)
  {
    ValidFromGroups(a, b, c, d, rest);
  }

  /** The address of `test_valid_ipv4` in `tests/test_update.py` is accepted. */
  lemma TestAddressAccepted(s: string)
    requires s == "192.168.1.1"
    ensures IsValidIp(s)
  {
    AcceptedExample(s, "192", "168", "1", "1", "");
  }

  /**
   Accepted although not a bare dotted quad: no octet range check, text
   after a word boundary is not looked at, and neither is a fifth group.
   */
  lemma LooseFormsAccepted(s: string)
    requires s == "999.999.999.999" || s == "1.2.3.4 x" || s == "1.2.3.4.5"
    ensures IsValidIp(s)
  {
    if s == "999.999.999.999" {
      AcceptedExample(s, "999", "999", "999", "999", "");
    } else if s == "1.2.3.4 x" {
      AcceptedExample(s, "1", "2", "3", "4", " x");
    } else {
      AcceptedExample(s, "1", "2", "3", "4", ".5");
    }
  }

  /** The string `test_invalid_ipv4` in `tests/test_update.py` rejects, and the empty string. */
  lemma NotAnIpRejected(s: string)
    requires s == "not_an_ip" || s == ""
    ensures !IsValidIp(s)
  {
    NoLeadingDigitRejected(s);
  }

  /** A leading group of four digits. */
  lemma LongFirstGroupRejected(s: string)
    requires s == "1234.1.1.1"
    ensures !IsValidIp(s)
  {
    LongRunRejected(s, 4);
  }

  /** A letter straight after the fourth group. */
  lemma LetterAfterAddressRejected(s: string)
    requires s == "1.2.3.4a"
    ensures !IsValidIp(s)
  {
    RejectedExample(s, "1", "2", "3", "4", "a");
  }

  lemma RejectedExample(s: string, a: string, b: string, c: string, d: string, rest: string)
    requires IsGroup(a) && IsGroup(b) && IsGroup(c) && IsGroup(d)
    requires |rest| > 0 && IsWordChar(rest[0])
    requires |d| == 3 || !IsDigit(rest[0])
    requires s == a + "." + b + "." + c + "." + d + rest
    ensures !IsValidIp(s)
  {
    WordAfterFourthGroupRejected(a, b, c, d, rest);
  }
}
