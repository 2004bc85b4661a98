/** String primitives with JavaScript semantics: the white space of `\s` and
    `String.prototype.trim`, the line terminators that `.` refuses, ASCII letters,
    `toLowerCase` on ASCII, and leftmost substring search (`indexOf`, `includes`). */
module Text {
  import opened Wrappers

  /** The characters JavaScript counts as white space or line terminators:
      exactly the set matched by the regular-expression class `\s` and removed by `trim`. */
  predicate IsJsWhitespace(c: char) {
    || c == '\t' || c == '\n' || c == '\U{000B}' || c == '\U{000C}' || c == '\r' || c == ' '
    || c == '\U{00A0}' || c == '\U{1680}' || ('\U{2000}' <= c <= '\U{200A}')
    || c == '\U{2028}' || c == '\U{2029}' || c == '\U{202F}' || c == '\U{205F}'
    || c == '\U{3000}' || c == '\U{FEFF}'
  }

  /** The characters a regular-expression `.` does not match. */
  predicate IsLineTerminator(c: char) {
    c == '\n' || c == '\r' || c == '\U{2028}' || c == '\U{2029}'
  }

  predicate AllWhitespace(s: string) {
    forall i :: 0 <= i < |s| ==> IsJsWhitespace(s[i])
  }

  /** No white space at either end: what `trim` produces. */
  predicate IsTrimmed(s: string) {
    |s| == 0 || (!IsJsWhitespace(s[0]) && !IsJsWhitespace(s[|s| - 1]))
  }

  predicate IsAsciiUpper(c: char) { 'A' <= c <= 'Z' }

  predicate IsAsciiLower(c: char) { 'a' <= c <= 'z' }

  /** The class `[A-Za-z]`. */
  predicate IsAsciiLetter(c: char) { IsAsciiUpper(c) || IsAsciiLower(c) }

  function LowerChar(c: char): char {
    if IsAsciiUpper(c) then (c as int + 32) as char else c
  }

  /** `toLowerCase`, restricted to the ASCII letters. */
  function ToLowerAscii(s: string): (r: string)
    ensures |r| == |s|
    ensures forall i :: 0 <= i < |s| ==> r[i] == LowerChar(s[i])
  {
    seq(|s|, i requires 0 <= i < |s| => LowerChar(s[i]))
  }

  /** Removes leading white space, like `trimStart`. */
  function TrimStart(s: string): (r: string)
    ensures |r| <= |s| && r == s[|s| - |r|..]
    ensures |r| > 0 ==> !IsJsWhitespace(r[0])
    ensures AllWhitespace(s[..|s| - |r|])
  {
    if |s| > 0 && IsJsWhitespace(s[0]) then
      var r := TrimStart(s[1..]);
      assert s[1..][|s| - 1 - |r|..] == s[|s| - |r|..];
      assert forall i :: 1 <= i < |s| - |r| ==> s[i] == s[1..][..|s| - 1 - |r|][i - 1];
      r
    else
      s
  }

  /** Removes trailing white space, like `trimEnd`. */
  function TrimEnd(s: string): (r: string)
    ensures |r| <= |s| && r == s[..|r|]
    ensures |r| > 0 ==> !IsJsWhitespace(r[|r| - 1])
    ensures AllWhitespace(s[|r|..])
  {
    if |s| > 0 && IsJsWhitespace(s[|s| - 1]) then
      var r := TrimEnd(s[..|s| - 1]);
      assert forall i :: |r| <= i < |s| - 1 ==> s[i] == s[..|s| - 1][|r|..][i - |r|];
      r
    else
      s
  }

  /** `String.prototype.trim`. */
  function Trim(s: string): (r: string)
    ensures IsTrimmed(r)
    ensures |r| <= |s|
  {
    TrimEnd(TrimStart(s))
  }

  lemma AllWhitespaceTrimsToEmpty(s: string)
    requires AllWhitespace(s)
    ensures TrimStart(s) == ""
  {
  }

  lemma {:induction false} TrimStartOfPadded(a: string, c: string)
    requires AllWhitespace(a)
    requires |c| > 0 && !IsJsWhitespace(c[0])
    ensures TrimStart(a + c) == c
    decreases |a|
  {
    if |a| > 0 {
      assert (a + c)[1..] == a[1..] + c;
      TrimStartOfPadded(a[1..], c);
    } else {
      assert a + c == c;
    }
  }

  lemma {:induction false} TrimEndOfPadded(c: string, b: string)
    requires AllWhitespace(b)
    requires |c| > 0 && !IsJsWhitespace(c[|c| - 1])
    ensures TrimEnd(c + b) == c
    decreases |b|
  {
    if |b| > 0 {
      assert (c + b)[..|c + b| - 1] == c + b[..|b| - 1];
      TrimEndOfPadded(c, b[..|b| - 1]);
    } else {
      assert c + b == c;
    }
  }

  /** `trim` strips exactly the white space around a trimmed core: the core is the unique
      trimmed infix left after removing white-space padding on both sides. */
  lemma TrimOfPadded(a: string, c: string, b: string)
    requires AllWhitespace(a) && AllWhitespace(b)
    requires IsTrimmed(c)
    ensures Trim(a + c + b) == c
  {
    if |c| == 0 {
      assert a + c + b == a + b;
      assert AllWhitespace(a + b);
      AllWhitespaceTrimsToEmpty(a + b);
    } else {
      assert a + c + b == a + (c + b);
      TrimStartOfPadded(a, c + b);
      TrimEndOfPadded(c, b);
    }
  }

  /** Trimming twice is trimming once. */
  lemma TrimIdempotent(s: string)
    ensures Trim(Trim(s)) == Trim(s)
  {
    var t := Trim(s);
    assert "" + t + "" == t;
    TrimOfPadded("", t, "");
  }

  /** `pat` occurs in `text` starting at index `i`. */
  predicate OccursAt(text: string, pat: string, i: int) {
    0 <= i && i + |pat| <= |text| && text[i..i + |pat|] == pat
  }

  /** `j` is the leftmost occurrence of `pat` at or after `from`. */
  predicate IsFirstFrom(text: string, pat: string, from: nat, j: nat) {
    from <= j && OccursAt(text, pat, j) && forall k :: from <= k < j ==> !OccursAt(text, pat, k)
  }

  /** `pat` does not occur at or after `from`. */
  ghost predicate NoneFrom(text: string, pat: string, from: nat) {
    forall k :: from <= k ==> !OccursAt(text, pat, k)
  }

  /** `text.indexOf(pat, from)`, trying one position after the other. */
  function FindFrom(text: string, pat: string, from: nat): (r: Option<nat>)
    ensures r.Some? ==> from <= r.value && r.value + |pat| <= |text|
    decreases |text| - from
  {
    if from + |pat| > |text| then None
    else if text[from..from + |pat|] == pat then Some(from)
    else FindFrom(text, pat, from + 1)
  }

  /** What the search finds is the leftmost occurrence at or after `from`. */
  lemma {:induction false} FindFromSome(text: string, pat: string, from: nat)
    ensures FindFrom(text, pat, from).Some? ==> IsFirstFrom(text, pat, from, FindFrom(text, pat, from).value)
    decreases |text| - from
  {
    if from + |pat| <= |text| && text[from..from + |pat|] != pat {
      FindFromSome(text, pat, from + 1);
    }
  }

  /** The search finds nothing only when `pat` does not occur at or after `from`. */
  lemma {:induction false} FindFromNone(text: string, pat: string, from: nat)
    ensures FindFrom(text, pat, from).None? ==> NoneFrom(text, pat, from)
    decreases |text| - from
  {
    if from + |pat| <= |text| && text[from..from + |pat|] != pat {
      FindFromNone(text, pat, from + 1);
    }
  }

  /** Conversely, the leftmost occurrence is what the search finds. */
  lemma {:induction false} FindFromAt(text: string, pat: string, from: nat, j: nat)
    requires IsFirstFrom(text, pat, from, j)
    ensures FindFrom(text, pat, from) == Some(j)
    decreases j - from
  {
    if from < j {
      assert !OccursAt(text, pat, from);
      FindFromAt(text, pat, from + 1, j);
    }
  }

  /** `text.includes(pat)`. */
  function Contains(text: string, pat: string): (b: bool)
    ensures b <==> exists k :: OccursAt(text, pat, k)
  {
    FindFromSome(text, pat, 0);
    FindFromNone(text, pat, 0);
    FindFrom(text, pat, 0).Some?
  }

  /** An occurrence inside the slice `text[lo..hi]` is an occurrence in `text`, shifted
      by `lo`, and conversely for occurrences that end by `hi`. */
  lemma OccursInSlice(text: string, pat: string, lo: nat, hi: nat, k: nat)
    requires lo <= k && hi <= |text| && lo <= hi
    ensures OccursAt(text[lo..hi], pat, k - lo) <==> k + |pat| <= hi && OccursAt(text, pat, k)
  {
    if k + |pat| <= hi {
      var a, b := text[lo..hi][k - lo..k - lo + |pat|], text[k..k + |pat|];
      assert forall i :: 0 <= i < |pat| ==> a[i] == b[i];
      assert a == b;
    }
  }

  lemma SliceOfSlice(text: string, lo: nat, hi: nat, a: nat, b: nat)
    requires lo <= hi <= |text| && a <= b <= hi - lo
    ensures text[lo..hi][a..b] == text[lo + a..lo + b]
  {
    var x, y := text[lo..hi][a..b], text[lo + a..lo + b];
    assert forall i :: 0 <= i < |x| ==> x[i] == y[i];
  }

  /** A text that holds `tag` at `k` holds each of its characters there. */
  lemma OccursChar(s: string, tag: string, k: nat, i: nat)
    requires i < |tag|
    ensures OccursAt(s, tag, k) ==> k + i < |s| && s[k + i] == tag[i]
  {
    if OccursAt(s, tag, k) {
      assert s[k..k + |tag|][i] == s[k + i];
    }
  }

  /** A text that holds `x + y` at `k` holds `x` there and `y` right after it. */
  lemma OccursSplit(text: string, x: string, y: string, k: nat)
    requires OccursAt(text, x + y, k)
    ensures OccursAt(text, x, k) && OccursAt(text, y, k + |x|)
  {
    SliceOfSlice(text, k, k + |x| + |y|, 0, |x|);
    SliceOfSlice(text, k, k + |x| + |y|, |x|, |x| + |y|);
    assert (x + y)[..|x|] == x && (x + y)[|x|..] == y;
  }

  /** `indexOf` on a slice that still holds the leftmost occurrence finds the same
      occurrence, shifted. */
  lemma FindFromSlice(text: string, pat: string, lo: nat, hi: nat, from: nat, j: nat)
    requires lo <= from && hi <= |text|
    requires FindFrom(text, pat, from) == Some(j) && j + |pat| <= hi
    ensures FindFrom(text[lo..hi], pat, from - lo) == Some(j - lo)
  {
    FindFromSome(text, pat, from);
    OccursInSlice(text, pat, lo, hi, j);
    forall k | from - lo <= k < j - lo
      ensures !OccursAt(text[lo..hi], pat, k)
    {
      OccursInSlice(text, pat, lo, hi, k + lo);
    }
    FindFromAt(text[lo..hi], pat, from - lo, j - lo);
  }
}
