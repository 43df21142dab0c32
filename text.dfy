/**
 The two string operations the handlers rely on: Python's `str.strip()`,
 applied to user names, category names and search terms, and the
 substring test the catalogue search sends to SQLite (`LIKE '%q%'`, which
 ignores the case of ASCII letters).
 */
module Text {

  /** The characters Python's `str.strip()` removes when given no argument. */
  predicate IsSpace(c: char) {
    || ('\t' <= c <= '\r')
    || ('\U{1C}' <= c <= '\U{1F}')
    || c == ' ' || c == '\U{85}' || c == '\U{A0}' || c == '\U{1680}'
    || ('\U{2000}' <= c <= '\U{200A}')
    || c == '\U{2028}' || c == '\U{2029}' || c == '\U{202F}' || c == '\U{205F}' || c == '\U{3000}'
  }

  /** The number of white-space characters `s` starts with. */
  function LeadingSpace(s: string): (n: nat)
    ensures n <= |s|
    ensures forall k :: 0 <= k < n ==> IsSpace(s[k])
    ensures n == |s| || !IsSpace(s[n])
  {
    if s != [] && IsSpace(s[0]) then 1 + LeadingSpace(s[1..]) else 0
  }

  /**
   Where the content of `s` ends when white space is cut off its end, never
   going left of `lo`.
   */
  function ContentEnd(s: string, lo: nat): (n: nat)
    requires lo <= |s|
    ensures lo <= n <= |s|
    ensures forall k :: n <= k < |s| ==> IsSpace(s[k])
    ensures n == lo || !IsSpace(s[n - 1])
  {
    if lo < |s| && IsSpace(s[|s| - 1]) then ContentEnd(s[..|s| - 1], lo) else |s|
  }

  /** `str.strip()`: cut white space off the start, then off the end. */
  function Strip(s: string): string {
    var lo := LeadingSpace(s);
    s[lo..ContentEnd(s, lo)]
  }

  /** Everything before `i` and from `j` on is white space. */
  ghost predicate OnlySpaceOutside(s: string, i: int, j: int)
    requires 0 <= i <= j <= |s|
  {
    (forall k :: 0 <= k < i ==> IsSpace(s[k])) && (forall k :: j <= k < |s| ==> IsSpace(s[k]))
  }

  /**
   What `strip` promises: the result is a contiguous piece of the input with
   only white space cut off on either side, and it has no white space at
   either edge.
   */
  lemma StripSpec(s: string)
    ensures exists i, j :: 0 <= i <= j <= |s| && OnlySpaceOutside(s, i, j) && Strip(s) == s[i..j]
    ensures Strip(s) == [] || (!IsSpace(Strip(s)[0]) && !IsSpace(Strip(s)[|Strip(s)| - 1]))
  {
    var lo := LeadingSpace(s);
    var hi := ContentEnd(s, lo);
    assert OnlySpaceOutside(s, lo, hi);
  }

  /** A stripped name is blank exactly when the raw input held only white space. */
  lemma StripBlankIff(s: string)
    ensures Strip(s) == [] <==> forall k :: 0 <= k < |s| ==> IsSpace(s[k])
  {
    var lo := LeadingSpace(s);
    var hi := ContentEnd(s, lo);
    if lo < |s| {
      assert !IsSpace(s[lo]);
      assert hi != lo;
    }
  }

  /** Stripping twice is stripping once. */
  lemma StripIdempotent(s: string)
    ensures Strip(Strip(s)) == Strip(s)
  {
    var r := Strip(s);
    StripSpec(s);
    assert LeadingSpace(r) == 0;
    assert ContentEnd(r, 0) == |r|;
  }

  /** ASCII upper-case letters become lower case; every other character is kept. */
  function LowerChar(c: char): char {
    if 'A' <= c <= 'Z' then (c as int + 32) as char else c
  }

  function Lower(s: string): (r: string)
    ensures |r| == |s|
    ensures forall i :: 0 <= i < |s| ==> r[i] == LowerChar(s[i])
  {
    seq(|s|, i requires 0 <= i < |s| => LowerChar(s[i]))
  }

  /** `q` occurs in `s` as a contiguous piece. */
  ghost predicate Occurs(q: string, s: string) {
    exists i, j :: 0 <= i <= j <= |s| && s[i..j] == q
  }

  /** `s` begins with `q`. */
  predicate StartsWith(s: string, q: string) {
    |q| <= |s| && s[..|q|] == q
  }

  /** Substring search, scanning the start positions from left to right. */
  function Find(s: string, q: string): bool {
    StartsWith(s, q) || (s != [] && Find(s[1..], q))
  }

  lemma {:induction false} FindSound(s: string, q: string)
    requires Find(s, q)
    ensures Occurs(q, s)
  {
    if StartsWith(s, q) {
      assert s[0..|q|] == q;
    } else {
      FindSound(s[1..], q);
      var i, j :| 0 <= i <= j <= |s[1..]| && s[1..][i..j] == q;
      assert s[i + 1..j + 1] == q;
    }
  }

  lemma {:induction false} FindComplete(s: string, q: string, i: int, j: int)
    requires 0 <= i <= j <= |s| && s[i..j] == q
    ensures Find(s, q)
    decreases i
  {
    if i == 0 {
      assert s[..|q|] == q;
    } else {
      assert s[1..][i - 1..j - 1] == q;
      FindComplete(s[1..], q, i - 1, j - 1);
    }
  }

  /** The scan finds `q` exactly when `q` occurs in `s`. */
  lemma FindIff(s: string, q: string)
    ensures Find(s, q) <==> Occurs(q, s)
  {
    if Find(s, q) {
      FindSound(s, q);
    }
    if Occurs(q, s) {
      var i, j :| 0 <= i <= j <= |s| && s[i..j] == q;
      FindComplete(s, q, i, j);
    }
  }

  /** The catalogue's name filter: `s` contains `q`, ignoring the case of ASCII letters. */
  predicate ContainsIgnoringCase(s: string, q: string) {
    Find(Lower(s), Lower(q))
  }

  lemma ContainsIgnoringCaseIff(s: string, q: string)
    ensures ContainsIgnoringCase(s, q) <==> Occurs(Lower(q), Lower(s))
  {
    FindIff(Lower(s), Lower(q));
  }
}
