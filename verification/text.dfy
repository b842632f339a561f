/** The few Python `str` operations the tools rely on: `strip()`, `lower()`,
    `in`, `split(sep)`, `split(sep)[-1]` and `split(".", 1)`. */
module Text {
  import opened Wrappers

  /** The characters for which Python's `str.isspace()` holds; `strip()` with
      no argument removes exactly these from both ends. */
  predicate IsSpace(c: char) {
    || c == ' '
    || ('\t' <= c <= '\r')
    || ('\U{1C}' <= c <= '\U{1F}')
    || c == '\U{85}' || c == '\U{A0}' || c == '\U{1680}'
    || ('\U{2000}' <= c <= '\U{200A}')
    || c == '\U{2028}' || c == '\U{2029}' || c == '\U{202F}'
    || c == '\U{205F}' || c == '\U{3000}'
  }

  predicate AllSpace(s: string) {
    forall i :: 0 <= i < |s| ==> IsSpace(s[i])
  }

  /** Number of leading whitespace characters. */
  function LeadingSpaces(s: string): (k: nat)
    ensures k <= |s|
    ensures forall i :: 0 <= i < k ==> IsSpace(s[i])
    ensures k < |s| ==> !IsSpace(s[k])
  {
    if s == [] || !IsSpace(s[0]) then 0
    else 1 + LeadingSpaces(s[1..])
  }

  /** Number of trailing whitespace characters. */
  function TrailingSpaces(s: string): (k: nat)
    ensures k <= |s|
    ensures forall i :: |s| - k <= i < |s| ==> IsSpace(s[i])
    ensures k < |s| ==> !IsSpace(s[|s| - k - 1])
  {
    if s == [] || !IsSpace(s[|s| - 1]) then 0
    else
      var init := s[..|s| - 1];
      var k := 1 + TrailingSpaces(init);
      assert forall i :: |s| - k <= i < |s| - 1 ==> s[i] == init[i];
      k
  }

  /** Python's `s.strip()`: what is left once the longest all-whitespace
      prefix and suffix are removed; it neither starts nor ends with whitespace. */
  function Strip(s: string): (r: string)
    ensures exists i, j :: && 0 <= i <= j <= |s| && r == s[i..j]
                           && (forall k :: 0 <= k < i ==> IsSpace(s[k]))
                           && (forall k :: j <= k < |s| ==> IsSpace(s[k]))
    ensures r != [] ==> !IsSpace(r[0]) && !IsSpace(r[|r| - 1])
  {
    var i := LeadingSpaces(s);
    var t := TrailingSpaces(s);
    var j := if |s| - t < i then i else |s| - t;
    s[i..j]
  }

  /** A string made only of whitespace strips to the empty string, and only such a string does. */
  lemma StripEmptyIffAllSpace(s: string)
    ensures Strip(s) == [] <==> AllSpace(s)
  {
    var i, j :| && 0 <= i <= j <= |s| && Strip(s) == s[i..j]
                && (forall k :: 0 <= k < i ==> IsSpace(s[k]))
                && (forall k :: j <= k < |s| ==> IsSpace(s[k]));
    if Strip(s) != [] {
      assert !IsSpace(s[i]);
    }
  }

  function LowerChar(c: char): char {
    if 'A' <= c <= 'Z' then (c as int + 32) as char else c
  }

  /** `s.lower()` restricted to ASCII letters. */
  function Lower(s: string): (r: string)
    ensures |r| == |s|
    ensures forall i :: 0 <= i < |s| ==> r[i] == LowerChar(s[i])
  {
    seq(|s|, i requires 0 <= i < |s| => LowerChar(s[i]))
  }

  /** `pat` occurs in `s` starting at index `i`. */
  predicate OccursAt(s: string, pat: string, i: int) {
    0 <= i && i + |pat| <= |s| && s[i..i + |pat|] == pat
  }

  /** The first index at or after `from` where `pat` occurs, if any. */
  function FindFrom(s: string, pat: string, from: nat): (r: Option<nat>)
    decreases |s| - from
    ensures r.Some? ==> from <= r.value && OccursAt(s, pat, r.value)
    ensures r.Some? ==> forall j :: from <= j < r.value ==> !OccursAt(s, pat, j)
    ensures r.None? ==> forall j :: from <= j ==> !OccursAt(s, pat, j)
  {
    if from + |pat| > |s| then None
    else if s[from..from + |pat|] == pat then Some(from)
    else FindFrom(s, pat, from + 1)
  }

  /** Python's `pat in s`. */
  predicate Contains(s: string, pat: string)
    ensures Contains(s, pat) <==> exists i :: OccursAt(s, pat, i)
  {
    FindFrom(s, pat, 0).Some?
  }

  /** Python's `s.split(pat)[-1]` for a non-empty separator: the text after the
      last occurrence that a left-to-right, non-overlapping scan finds, or all
      of `s` when `pat` does not occur. */
  function AfterLast(s: string, pat: string): (r: string)
    requires |pat| > 0
    decreases |s|
    ensures Contains(s, pat) ==> exists k :: OccursAt(s, pat, k) && r == s[k + |pat|..]
    ensures !Contains(s, pat) ==> r == s
    ensures !Contains(r, pat)
  {
    match FindFrom(s, pat, 0)
    case None => s
    case Some(i) =>
      var rest := s[i + |pat|..];
      var r := AfterLast(rest, pat);
      if Contains(rest, pat) then
        var k' :| OccursAt(rest, pat, k') && r == rest[k' + |pat|..];
        OccursAfter(s, pat, i + |pat|, k');
        r
      else
        r
  }

  /** The text after a leading `pat` that does not occur again is all that follows it. */
  lemma AfterLastOfLeading(pat: string, tail: string)
    requires |pat| > 0 && !Contains(tail, pat)
    ensures AfterLast(pat + tail, pat) == tail
  {
    var s := pat + tail;
    assert s[0..|pat|] == pat;
    assert FindFrom(s, pat, 0) == Some(0);
    assert s[|pat|..] == tail;
  }

  /** An occurrence in a suffix is an occurrence in the whole string, with the same tail. */
  lemma OccursAfter(s: string, pat: string, start: nat, k: nat)
    requires start <= |s| && OccursAt(s[start..], pat, k)
    ensures OccursAt(s, pat, start + k)
    ensures s[start..][k + |pat|..] == s[start + k + |pat|..]
  {
    assert s[start + k..start + k + |pat|] == s[start..][k..k + |pat|];
  }

  /** Index of the first `c` in `s`. */
  function IndexOf(s: string, c: char): (i: nat)
    requires c in s
    ensures i < |s| && s[i] == c && c !in s[..i]
  {
    if s[0] == c then 0
    else
      var i := 1 + IndexOf(s[1..], c);
      assert s[..i] == [s[0]] + s[1..][..i - 1];
      i
  }

  /** Inverse of `Split`: the pieces glued back with the separator. */
  function Join(parts: seq<string>, sep: char): string {
    if parts == [] then ""
    else if |parts| == 1 then parts[0]
    else parts[0] + [sep] + Join(parts[1..], sep)
  }

  /** Python's `s.split(sep)` for a one-character separator. */
  function Split(s: string, sep: char): (r: seq<string>)
    decreases |s|
    ensures |r| >= 1
    ensures forall i :: 0 <= i < |r| ==> sep !in r[i]
    ensures Join(r, sep) == s
  {
    if sep !in s then [s]
    else
      var i := IndexOf(s, sep);
      assert s == s[..i] + [sep] + s[i + 1..];
      [s[..i]] + Split(s[i + 1..], sep)
  }

  /** Splitting a joined list of separator-free pieces gives the pieces back. */
  lemma {:induction false} SplitJoin(parts: seq<string>, sep: char)
    requires |parts| >= 1
    requires forall i :: 0 <= i < |parts| ==> sep !in parts[i]
    ensures Split(Join(parts, sep), sep) == parts
  {
    if |parts| > 1 {
      SplitAtFirst(parts[0], Join(parts[1..], sep), sep);
      SplitJoin(parts[1..], sep);
      assert parts == [parts[0]] + parts[1..];
    }
  }

  /** A separator-free prefix followed by the separator is the first piece. */
  lemma SplitAtFirst(prefix: string, rest: string, sep: char)
    requires sep !in prefix
    ensures Split(prefix + [sep] + rest, sep) == [prefix] + Split(rest, sep)
  {
    var s := prefix + [sep] + rest;
    var n := |prefix|;
    assert s[n] == sep;
    var i := IndexOf(s, sep);
    assert i == n;
    assert s[..i] == prefix;
    assert s[i + 1..] == rest;
  }

  /** Python's `a, b = s.split(c, 1)`: the text before and after the first
      `c`, or `None` when the unpacking would raise because `c` is missing. */
  function SplitOnce(s: string, c: char): (r: Option<(string, string)>)
    ensures r.None? <==> c !in s
    ensures r.Some? ==> s == r.value.0 + [c] + r.value.1 && c !in r.value.0
  {
    if c !in s then None
    else
      var i := IndexOf(s, c);
      assert s == s[..i] + [c] + s[i + 1..];
      Some((s[..i], s[i + 1..]))
  }

  /** Splitting at a `c` that nothing before it contains gives back the two sides. */
  lemma SplitOnceAt(before: string, after: string, c: char)
    requires c !in before
    ensures SplitOnce(before + [c] + after, c) == Some((before, after))
  {
    var s := before + [c] + after;
    assert s[|before|] == c;
    var i := IndexOf(s, c);
    assert i == |before|;
    assert s[..i] == before;
    assert s[i + 1..] == after;
  }

  /** `parts` extended with empty strings up to `n` fields. */
  function PadTo(parts: seq<string>, n: nat): (r: seq<string>)
    ensures |r| == if |parts| < n then n else |parts|
    ensures r[..|parts|] == parts
    ensures forall i :: |parts| <= i < |r| ==> r[i] == ""
  {
    if |parts| < n then parts + seq(n - |parts|, _ => "") else parts
  }
}
