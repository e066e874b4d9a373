/**
 The string operations of Python's `str` that the updater relies on:
 `strip()` with no argument, `split(sep)` and the substring test `t in s`.
 */
module Text {

  /** The characters for which Python's `str.isspace()` holds; `str.strip()` removes exactly these. */
  predicate IsSpace(c: char) {
    || ('\t' <= c <= '\r')
    || ('\U{1C}' <= c <= '\U{1F}')
    || c == ' '
    || c == '\U{85}'
    || c == '\U{A0}'
    || c == '\U{1680}'
    || ('\U{2000}' <= c <= '\U{200A}')
    || c == '\U{2028}'
    || c == '\U{2029}'
    || c == '\U{202F}'
    || c == '\U{205F}'
    || c == '\U{3000}'
  }

  predicate AllSpace(s: string) {
    forall i :: 0 <= i < |s| ==> IsSpace(s[i])
  }

  /** Neither end of `s` is whitespace: what `strip()` guarantees of its result. */
  predicate IsStripped(s: string) {
    |s| == 0 || (!IsSpace(s[0]) && !IsSpace(s[|s| - 1]))
  }

  /** Where `s.lstrip()` would start scanning from `i`: the first non-whitespace position at or after `i`. */
  function CoreStart(s: string, i: nat): (n: nat)
    requires i <= |s|
    ensures i <= n <= |s|
    ensures forall k :: i <= k < n ==> IsSpace(s[k])
    ensures n == |s| || !IsSpace(s[n])
    decreases |s| - i
  {
    if i < |s| && IsSpace(s[i]) then CoreStart(s, i + 1) else i
  }

  /** Where `s.rstrip()` would stop scanning back from `j` to `lo`: just after the last non-whitespace position. */
  function CoreEnd(s: string, lo: nat, j: nat): (n: nat)
    requires lo <= j <= |s|
    ensures lo <= n <= j
    ensures forall k :: n <= k < j ==> IsSpace(s[k])
    ensures n == lo || !IsSpace(s[n - 1])
  {
    if lo < j && IsSpace(s[j - 1]) then CoreEnd(s, lo, j - 1) else j
  }

  /** `r` is `s[i..j]` and everything of `s` outside `i..j` is whitespace. */
  predicate CutsMargins(s: string, r: string, i: int, j: int) {
    && 0 <= i <= j <= |s|
    && r == s[i..j]
    && (forall k :: 0 <= k < i ==> IsSpace(s[k]))
    && (forall k :: j <= k < |s| ==> IsSpace(s[k]))
  }

  /** `s.strip()`: `s` with its whitespace margins cut off. */
  function Strip(s: string): (r: string)
    ensures IsStripped(r)
    ensures exists i, j :: CutsMargins(s, r, i, j)
  {
    var i := CoreStart(s, 0);
    var j := CoreEnd(s, i, |s|);
    assert CutsMargins(s, s[i..j], i, j);
    s[i..j]
  }

  /**
   Strip's result is determined by its two properties: whatever non-empty,
   unpadded core sits between two whitespace margins is what `strip()` returns.
   */
  lemma StripUnique(pre: string, core: string, post: string)
    requires AllSpace(pre) && AllSpace(post)
    requires |core| > 0 && IsStripped(core)
    ensures Strip(pre + core + post) == core
  {
    var s := pre + core + post;
    var i, j := |pre|, |pre| + |core|;
    assert s[i] == core[0] && s[j - 1] == core[|core| - 1];
    assert forall k :: 0 <= k < i ==> s[k] == pre[k];
    assert forall k :: j <= k < |s| ==> s[k] == post[k - j];
    assert CoreStart(s, 0) == i;
    assert CoreEnd(s, i, |s|) == j;
    assert s[i..j] == core;
  }

  /** Stripping twice is stripping once. */
  lemma StripIdempotent(s: string)
    ensures Strip(Strip(s)) == Strip(s)
  {
    var r := Strip(s);
    if |r| > 0 {
      assert r == [] + r + [];
      StripUnique([], r, []);
    }
  }

  /** `s.split(sep)`: the pieces of `s` between occurrences of `sep`; always at least one, possibly empty. */
  function Split(s: string, sep: char): (r: seq<string>)
    ensures |r| >= 1
    ensures forall i :: 0 <= i < |r| ==> sep !in r[i]
    ensures Join(r, sep) == s
  {
    if |s| == 0 then [""]
    else
      var rest := Split(s[1..], sep);
      if s[0] == sep then
        assert s == [sep] + s[1..];
        [""] + rest
      else
        JoinConsFirst(s[0], rest, sep);
        assert s == [s[0]] + s[1..];
        [[s[0]] + rest[0]] + rest[1..]
  }

  /** `sep.join(parts)`. */
  function Join(parts: seq<string>, sep: char): string
    requires |parts| >= 1
  {
    if |parts| == 1 then parts[0] else parts[0] + [sep] + Join(parts[1..], sep)
  }

  lemma JoinConsFirst(c: char, parts: seq<string>, sep: char)
    requires |parts| >= 1
    ensures Join([[c] + parts[0]] + parts[1..], sep) == [c] + Join(parts, sep)
  {
    var q := [[c] + parts[0]] + parts[1..];
    assert q[1..] == parts[1..];
  }

  /** Splitting undoes joining, as long as no piece contains the separator. */
  lemma {:induction false} SplitJoin(parts: seq<string>, sep: char)
    requires |parts| >= 1
    requires forall i :: 0 <= i < |parts| ==> sep !in parts[i]
    ensures Split(Join(parts, sep), sep) == parts
    decreases |parts|, |parts[0]|
  {
    var p := parts[0];
    if |p| > 0 {
      var tail := [p[1..]] + parts[1..];
      assert p[1..] == p[|p| - |p[1..]|..];
      assert sep !in p[1..] by {
        forall k | 0 <= k < |p[1..]| ensures p[1..][k] != sep {
          assert p[1..][k] == p[k + 1];
        }
      }
      SplitJoin(tail, sep);
      JoinConsFirst(p[0], tail, sep);
      assert [p[0]] + p[1..] == p;
      assert tail[1..] == parts[1..];
      assert [[p[0]] + tail[0]] + tail[1..] == parts;
      var s := Join(parts, sep);
      assert s == [p[0]] + Join(tail, sep);
      assert s[1..] == Join(tail, sep);
      assert s[0] == p[0] && p[0] != sep by { assert p[0] in p; }
      var rest := Split(s[1..], sep);
      assert rest == tail;
      assert Split(s, sep) == [[s[0]] + rest[0]] + rest[1..];
    } else if |parts| == 1 {
      assert Join(parts, sep) == "";
    } else {
      var s := Join(parts, sep);
      assert s == [sep] + Join(parts[1..], sep);
      assert s[1..] == Join(parts[1..], sep);
      SplitJoin(parts[1..], sep);
      assert parts == [""] + parts[1..];
    }
  }

  /** `t` occurs in `s` starting at the first character. */
  predicate StartsWith(s: string, t: string) {
    |t| <= |s| && s[..|t|] == t
  }

  /** `t` occurs in `s` at position `i`. */
  predicate OccursAt(s: string, t: string, i: int) {
    0 <= i <= |s| - |t| && s[i..i + |t|] == t
  }

  /** Python's `t in s` on strings: `t` occurs at some position of `s` (the empty string everywhere). */
  predicate Contains(s: string, t: string) {
    exists i | 0 <= i <= |s| - |t| :: OccursAt(s, t, i)
  }
}
