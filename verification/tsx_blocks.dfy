/** The further fenced `.tsx` blocks of the assistant's answer, the client components:
    the global match of `/```tsx filename="(.*?\.tsx)"([\s\S]*?)```/g`, and the
    `.filter`/`.map`/`.filter` chain that turns its matches into files.

    A pattern of the shape `open(.*?ext)close([\s\S]*?)fence` is given by its four
    literal parts. What a match is, where the global match finds its matches, and what
    the chain keeps are stated as predicates over positions; the searches are loops
    whose postconditions say they find exactly that. */
module TsxBlocks {
  import opened Wrappers
  import opened Text

  // ---------------------------------------------------------------- patterns

  /** The literal parts of `open(.*?ext)close([\s\S]*?)fence`: the opening, the end of
      the file name (inside the name group), the closing after the name, and the fence
      that ends the lazy body. */
  datatype BlockPattern = BlockPattern(open: string, ext: string, close: string, fence: string)

  /** `/```tsx filename="(.*?\.tsx)"([\s\S]*?)```/`, which is also the `contentMatch`
      pattern (there the name is not captured, which changes nothing about the match). */
  const TsxPattern: BlockPattern := BlockPattern("```tsx filename=\"", ".tsx", "\"", "```")

  /** `/filename="(.*?\.tsx)"/`, the `nameMatch` pattern. It has no body: with an empty
      fence the lazy body matches nothing, so the match ends right after the closing. */
  const NamePattern: BlockPattern := BlockPattern("filename=\"", ".tsx", "\"", "")

  /** The text the first filter looks for. */
  const ComponentFilename: string := "filename=\"Component.tsx\""

  function TailLength(pt: BlockPattern): nat {
    |pt.ext| + |pt.close|
  }

  /** The extension followed by the closing starts at `m`. */
  predicate TailAt(text: string, pt: BlockPattern, m: nat) {
    OccursAt(text, pt.ext, m) && OccursAt(text, pt.close, m + |pt.ext|)
  }

  /** `(.*?ext)close` from `q` stops at `m`: the first tail after `q`, with no line
      terminator before it (`.` does not match one). */
  predicate NameEndsAt(text: string, q: nat, pt: BlockPattern, m: nat) {
    && q <= m && TailAt(text, pt, m)
    && (forall k :: q <= k < m ==> !TailAt(text, pt, k))
    && (forall k :: q <= k < m ==> !IsLineTerminator(text[k]))
  }

  /** The pattern matches at `p` with the name ending (before the extension) at `m` and
      the closing fence at `j`: the opening at `p`, the lazy name, then the lazy body up
      to the first fence. */
  predicate PosIs(text: string, p: nat, pt: BlockPattern, m: nat, j: nat) {
    && OccursAt(text, pt.open, p)
    && NameEndsAt(text, p + |pt.open|, pt, m)
    && IsFirstFrom(text, pt.fence, m + TailLength(pt), j)
  }

  /** A match: where it starts, where the tail ending the name starts, and where the
      closing fence starts. */
  datatype Match = Match(start: nat, nameEnd: nat, fence: nat)

  predicate IsMatch(text: string, pt: BlockPattern, mt: Match) {
    PosIs(text, mt.start, pt, mt.nameEnd, mt.fence)
  }

  function MatchEnd(pt: BlockPattern, mt: Match): nat {
    mt.fence + |pt.fence|
  }

  /** The first capture group, the file name. */
  function Name(text: string, pt: BlockPattern, mt: Match): string
    requires IsMatch(text, pt, mt)
  {
    text[mt.start + |pt.open|..mt.nameEnd + |pt.ext|]
  }

  /** The second capture group, the body. */
  function Body(text: string, pt: BlockPattern, mt: Match): string
    requires IsMatch(text, pt, mt)
  {
    text[mt.nameEnd + TailLength(pt)..mt.fence]
  }

  /** The matched text, an element of the `/g` match array. */
  function MatchText(text: string, pt: BlockPattern, mt: Match): string
    requires IsMatch(text, pt, mt)
  {
    text[mt.start..MatchEnd(pt, mt)]
  }

  /** No match starts in `[a, b)`. */
  ghost predicate NoMatchIn(text: string, pt: BlockPattern, a: nat, b: nat) {
    forall k: nat, m: nat, j: nat :: a <= k < b ==> !PosIs(text, k, pt, m, j)
  }

  /** No match starts at or after `a`. */
  ghost predicate NoMatchFrom(text: string, pt: BlockPattern, a: nat) {
    forall k: nat, m: nat, j: nat :: a <= k ==> !PosIs(text, k, pt, m, j)
  }

  /** At one position the pattern matches in at most one way. */
  lemma PosUnique(text: string, p: nat, pt: BlockPattern, m1: nat, j1: nat, m2: nat, j2: nat)
    requires PosIs(text, p, pt, m1, j1) && PosIs(text, p, pt, m2, j2)
    ensures m1 == m2 && j1 == j2
  {
    NameEndUnique(text, p + |pt.open|, pt, m1, m2);
  }

  lemma NameEndUnique(text: string, q: nat, pt: BlockPattern, m1: nat, m2: nat)
    requires NameEndsAt(text, q, pt, m1) && NameEndsAt(text, q, pt, m2)
    ensures m1 == m2
  {
  }

  /** Every part of a match lies inside the text, in order. */
  lemma MatchBounds(text: string, pt: BlockPattern, mt: Match)
    requires IsMatch(text, pt, mt)
    ensures mt.start + |pt.open| <= mt.nameEnd
    ensures mt.nameEnd + TailLength(pt) <= mt.fence
    ensures MatchEnd(pt, mt) <= |text|
  {
  }

  // ---------------------------------------------------------------- searches

  /** The lazy `(.*?ext)close` from `q`, one character at a time. */
  method FindNameEnd(text: string, q: nat, pt: BlockPattern) returns (r: Option<nat>)
    ensures r.Some? ==> NameEndsAt(text, q, pt, r.value)
    ensures r.None? ==> forall e: nat :: !NameEndsAt(text, q, pt, e)
  {
    var k := q;
    while true
      invariant q <= k
      invariant forall i :: q <= i < k ==> i < |text| && !TailAt(text, pt, i) && !IsLineTerminator(text[i])
      decreases |text| - k
    {
      if TailAt(text, pt, k) {
        return Some(k);
      }
      if k >= |text| || IsLineTerminator(text[k]) {
        assert forall e: nat :: !NameEndsAt(text, q, pt, e);
        return None;
      }
      k := k + 1;
    }
  }

  /** `indexOf`: the leftmost occurrence of `pat` at or after `from`. */
  method IndexOf(text: string, pat: string, from: nat) returns (r: Option<nat>)
    ensures r.Some? ==> IsFirstFrom(text, pat, from, r.value)
    ensures r.None? ==> NoneFrom(text, pat, from)
  {
    r := FindFrom(text, pat, from);
    FindFromSome(text, pat, from);
    FindFromNone(text, pat, from);
  }

  /** The pattern tried at `p`. */
  method MatchAt(text: string, p: nat, pt: BlockPattern) returns (r: Option<Match>)
    ensures r.Some? ==> r.value.start == p && IsMatch(text, pt, r.value)
    ensures r.None? ==> forall m: nat, j: nat :: !PosIs(text, p, pt, m, j)
  {
    if !OccursAt(text, pt.open, p) {
      return None;
    }
    var n := FindNameEnd(text, p + |pt.open|, pt);
    if n.None? {
      return None;
    }
    var f := IndexOf(text, pt.fence, n.value + TailLength(pt));
    if f.None? {
      assert forall m: nat, j: nat :: !PosIs(text, p, pt, m, j);
      return None;
    }
    return Some(Match(p, n.value, f.value));
  }

  /** A match is a non-empty stretch of the text starting at its position. */
  lemma StartsBeforeEnd(text: string, pt: BlockPattern, mt: Match)
    requires IsMatch(text, pt, mt)
    ensures mt.start + |pt.fence| <= MatchEnd(pt, mt) <= |text|
  {
  }

  /** No match can start past the end of the text. */
  lemma NothingPastEnd(text: string, pt: BlockPattern, a: nat)
    requires NoMatchIn(text, pt, a, |text| + 1)
    ensures NoMatchFrom(text, pt, a)
  {
  }

  /** The first match starting at or after `from`, trying one position after the other
      as a regular-expression search does. */
  method FirstMatchFrom(text: string, pt: BlockPattern, from: nat) returns (r: Option<Match>)
    ensures r.Some? ==> from <= r.value.start && IsMatch(text, pt, r.value) && NoMatchIn(text, pt, from, r.value.start)
    ensures r.None? ==> NoMatchFrom(text, pt, from)
  {
    var p := from;
    while p <= |text|
      invariant from <= p
      invariant NoMatchIn(text, pt, from, p)
      decreases |text| + 1 - p
    {
      var here := MatchAt(text, p, pt);
      if here.Some? {
        return here;
      }
      p := p + 1;
    }
    NothingPastEnd(text, pt, from);
    return None;
  }

  // ---------------------------------------------------------------- the global match

  /** Where the search for the `i`th match of a scan resumed: at `from` for the first,
      at the end of the match before for the others. */
  function ResumeAt(pt: BlockPattern, from: nat, ms: seq<Match>, i: nat): nat
    requires i <= |ms|
  {
    if i == 0 then from else MatchEnd(pt, ms[i - 1])
  }

  /** The `i`th match of a scan is the leftmost one at or after where the search
      resumed. */
  ghost predicate ScanElem(text: string, pt: BlockPattern, from: nat, ms: seq<Match>, i: nat)
    requires i < |ms|
  {
    ResumeAt(pt, from, ms, i) <= ms[i].start && IsMatch(text, pt, ms[i])
    && NoMatchIn(text, pt, ResumeAt(pt, from, ms, i), ms[i].start)
  }

  /** `ms` are the matches of `text.match(/…/g)` from `from` on: each is the leftmost
      match at or after the end of the one before (or `from`, for the first), and none
      follows the last. */
  ghost predicate IsScan(text: string, pt: BlockPattern, from: nat, ms: seq<Match>) {
    && (forall i :: 0 <= i < |ms| ==> ScanElem(text, pt, from, ms, i))
    && NoMatchFrom(text, pt, ResumeAt(pt, from, ms, |ms|))
  }

  /** The matches found so far, the search to resume at `from`: `IsScan` from 0 without
      the claim that nothing follows. */
  ghost predicate ScannedTo(text: string, pt: BlockPattern, ms: seq<Match>, from: nat) {
    && (forall i :: 0 <= i < |ms| ==> ScanElem(text, pt, 0, ms, i))
    && from == ResumeAt(pt, 0, ms, |ms|)
  }

  lemma ScanStep(text: string, pt: BlockPattern, ms: seq<Match>, from: nat, r: Match)
    requires ScannedTo(text, pt, ms, from)
    requires from <= r.start && IsMatch(text, pt, r) && NoMatchIn(text, pt, from, r.start)
    ensures ScannedTo(text, pt, ms + [r], MatchEnd(pt, r))
  {
    var ms' := ms + [r];
    forall i | 0 <= i < |ms'|
      ensures ScanElem(text, pt, 0, ms', i)
    {
      assert ResumeAt(pt, 0, ms', i) == ResumeAt(pt, 0, ms, i);
      if i < |ms| {
        assert ms'[i] == ms[i];
        assert ScanElem(text, pt, 0, ms, i);
      }
    }
  }

  /** The global match: search, take the match, resume where it ended. */
  method Scan(text: string, pt: BlockPattern) returns (ms: seq<Match>)
    requires |pt.fence| > 0
    ensures IsScan(text, pt, 0, ms)
  {
    ms := [];
    var from := 0;
    while true
      invariant from <= |text|
      invariant ScannedTo(text, pt, ms, from)
      decreases |text| - from
    {
      var r := FirstMatchFrom(text, pt, from);
      if r.None? {
        return;
      }
      StartsBeforeEnd(text, pt, r.value);
      ScanStep(text, pt, ms, from, r.value);
      ms := ms + [r.value];
      from := MatchEnd(pt, r.value);
    }
  }

  /** Every element of a scan is a match. */
  lemma ScanMatches(text: string, pt: BlockPattern, from: nat, ms: seq<Match>)
    requires IsScan(text, pt, from, ms)
    ensures forall i :: 0 <= i < |ms| ==> IsMatch(text, pt, ms[i])
  {
    forall i | 0 <= i < |ms|
      ensures IsMatch(text, pt, ms[i])
    {
      assert ScanElem(text, pt, from, ms, i);
    }
  }

  /** Two leftmost matches at or after the same position are the same match. */
  lemma LeftmostUnique(text: string, pt: BlockPattern, x: nat, a: Match, b: Match)
    requires x <= a.start && IsMatch(text, pt, a) && NoMatchIn(text, pt, x, a.start)
    requires x <= b.start && IsMatch(text, pt, b) && NoMatchIn(text, pt, x, b.start)
    ensures a == b
  {
    assert PosIs(text, a.start, pt, a.nameEnd, a.fence) && PosIs(text, b.start, pt, b.nameEnd, b.fence);
    PosUnique(text, a.start, pt, a.nameEnd, a.fence, b.nameEnd, b.fence);
  }

  /** Two scans from the same position agree match by match. */
  lemma {:induction false} ScanAgreeAt(text: string, pt: BlockPattern, from: nat, ms1: seq<Match>, ms2: seq<Match>, i: nat)
    requires IsScan(text, pt, from, ms1) && IsScan(text, pt, from, ms2)
    requires i < |ms1| && i < |ms2|
    ensures ms1[i] == ms2[i]
  {
    if i > 0 {
      ScanAgreeAt(text, pt, from, ms1, ms2, i - 1);
    }
    assert ScanElem(text, pt, from, ms1, i) && ScanElem(text, pt, from, ms2, i);
    assert ResumeAt(pt, from, ms1, i) == ResumeAt(pt, from, ms2, i);
    LeftmostUnique(text, pt, ResumeAt(pt, from, ms1, i), ms1[i], ms2[i]);
  }

  /** Where a scan resumes before one of its matches, there is a match to find. */
  lemma ScanFinds(text: string, pt: BlockPattern, from: nat, ms: seq<Match>, i: nat)
    requires IsScan(text, pt, from, ms) && i < |ms|
    ensures !NoMatchFrom(text, pt, ResumeAt(pt, from, ms, i))
  {
    assert ScanElem(text, pt, from, ms, i);
  }

  /** A scan that stops has nothing more to find where the other would go on. */
  lemma ScanNotShorter(text: string, pt: BlockPattern, from: nat, ms1: seq<Match>, ms2: seq<Match>)
    requires IsScan(text, pt, from, ms1) && IsScan(text, pt, from, ms2)
    ensures |ms2| <= |ms1|
  {
    var n := |ms1|;
    if n < |ms2| {
      if n > 0 {
        ScanAgreeAt(text, pt, from, ms1, ms2, n - 1);
      }
      ScanFinds(text, pt, from, ms2, n);
    }
  }

  /** The global match is determined by the text: two scans from the same position are
      the same sequence of matches. */
  lemma ScanUnique(text: string, pt: BlockPattern, from: nat, ms1: seq<Match>, ms2: seq<Match>)
    requires IsScan(text, pt, from, ms1) && IsScan(text, pt, from, ms2)
    ensures ms1 == ms2
  {
    ScanNotShorter(text, pt, from, ms1, ms2);
    ScanNotShorter(text, pt, from, ms2, ms1);
    forall i | 0 <= i < |ms1|
      ensures ms1[i] == ms2[i]
    {
      ScanAgreeAt(text, pt, from, ms1, ms2, i);
    }
  }

  /** The matches do not overlap and come in order. */
  lemma {:induction false} ScanOrdered(text: string, pt: BlockPattern, from: nat, ms: seq<Match>, i: nat, k: nat)
    requires IsScan(text, pt, from, ms) && |pt.fence| > 0
    requires i < k < |ms|
    ensures MatchEnd(pt, ms[i]) <= ms[k].start
    decreases k - i
  {
    assert ScanElem(text, pt, from, ms, i + 1);
    if i + 1 < k {
      ScanOrdered(text, pt, from, ms, i + 1, k);
      StartsBeforeEnd(text, pt, ms[i + 1]);
    }
  }

  // ---------------------------------------------------------------- shape of a match

  /** A text that holds `x` at `a`, `y` at `b` and `z` at `c` holds, from `a` to the
      end of `z`, the pieces in order with what lies between. */
  lemma Pieces(text: string, x: string, y: string, z: string, a: nat, b: nat, c: nat)
    requires a + |x| <= b && b + |y| <= c
    requires OccursAt(text, x, a) && OccursAt(text, y, b) && OccursAt(text, z, c)
    ensures text[a..c + |z|] == x + text[a + |x|..b] + y + text[b + |y|..c] + z
  {
    assert text[a..c + |z|] == text[a..a + |x|] + text[a + |x|..b] + text[b..b + |y|] + text[b + |y|..c] + text[c..c + |z|];
  }

  /** The matched text is the opening, the name, the closing, the body and the fence,
      and the name ends with the extension. */
  lemma MatchShape(text: string, pt: BlockPattern, mt: Match)
    requires IsMatch(text, pt, mt)
    ensures MatchText(text, pt, mt) == pt.open + Name(text, pt, mt) + pt.close + Body(text, pt, mt) + pt.fence
    ensures |Name(text, pt, mt)| >= |pt.ext|
    ensures Name(text, pt, mt)[|Name(text, pt, mt)| - |pt.ext|..] == pt.ext
  {
    MatchParts(text, pt, mt);
    ShapeAt(text, pt, mt.start, mt.nameEnd, mt.fence);
  }

  lemma MatchParts(text: string, pt: BlockPattern, mt: Match)
    requires IsMatch(text, pt, mt)
    ensures mt.start + |pt.open| <= mt.nameEnd && mt.nameEnd + TailLength(pt) <= mt.fence
    ensures OccursAt(text, pt.open, mt.start) && TailAt(text, pt, mt.nameEnd) && OccursAt(text, pt.fence, mt.fence)
    ensures MatchText(text, pt, mt) == text[mt.start..mt.fence + |pt.fence|]
    ensures Name(text, pt, mt) == text[mt.start + |pt.open|..mt.nameEnd + |pt.ext|]
    ensures Body(text, pt, mt) == text[mt.nameEnd + TailLength(pt)..mt.fence]
  {
  }

  lemma ShapeAt(text: string, pt: BlockPattern, p: nat, m: nat, j: nat)
    requires p + |pt.open| <= m && m + TailLength(pt) <= j
    requires OccursAt(text, pt.open, p) && TailAt(text, pt, m) && OccursAt(text, pt.fence, j)
    ensures text[p..j + |pt.fence|] == pt.open + text[p + |pt.open|..m + |pt.ext|] + pt.close + text[m + TailLength(pt)..j] + pt.fence
    ensures text[p + |pt.open|..m + |pt.ext|][m - p - |pt.open|..] == pt.ext
  {
    var q := p + |pt.open|;
    Pieces(text, pt.open, pt.close, pt.fence, p, m + |pt.ext|, j);
    SliceOfSlice(text, q, m + |pt.ext|, m - q, m + |pt.ext| - q);
  }

  // ---------------------------------------------------------------- matching again inside a match

  lemma TailInSlice(text: string, pt: BlockPattern, lo: nat, hi: nat, k: nat)
    requires lo <= k && lo <= hi <= |text|
    ensures TailAt(text[lo..hi], pt, k - lo) <==> k + TailLength(pt) <= hi && TailAt(text, pt, k)
  {
    OccursInSlice(text, pt.ext, lo, hi, k);
    OccursInSlice(text, pt.close, lo, hi, k + |pt.ext|);
  }

  /** The lazy name search inside a slice that still holds its end stops at the same
      place, shifted. */
  lemma NameEndInSlice(text: string, pt: BlockPattern, lo: nat, hi: nat, q: nat, m: nat)
    requires lo <= q && m + TailLength(pt) <= hi <= |text|
    requires NameEndsAt(text, q, pt, m)
    ensures NameEndsAt(text[lo..hi], q - lo, pt, m - lo)
  {
    var s := text[lo..hi];
    TailInSlice(text, pt, lo, hi, m);
    forall k | q - lo <= k < m - lo
      ensures !TailAt(s, pt, k) && !IsLineTerminator(s[k])
    {
      TailInSlice(text, pt, lo, hi, k + lo);
      assert s[k] == text[k + lo];
    }
  }

  /** The leftmost occurrence stays the leftmost inside a slice that holds it. */
  lemma FirstInSlice(text: string, pat: string, lo: nat, hi: nat, from: nat, j: nat)
    requires lo <= from && j + |pat| <= hi <= |text|
    requires IsFirstFrom(text, pat, from, j)
    ensures IsFirstFrom(text[lo..hi], pat, from - lo, j - lo)
  {
    OccursInSlice(text, pat, lo, hi, j);
    forall k | from - lo <= k < j - lo
      ensures !OccursAt(text[lo..hi], pat, k)
    {
      OccursInSlice(text, pat, lo, hi, k + lo);
    }
  }

  /** Matching the pattern against a match's own text finds it at the start. */
  lemma MatchInOwnText(text: string, pt: BlockPattern, mt: Match)
    requires IsMatch(text, pt, mt)
    ensures IsMatch(MatchText(text, pt, mt), pt, Match(0, mt.nameEnd - mt.start, mt.fence - mt.start))
  {
    var p, m, j, e := mt.start, mt.nameEnd, mt.fence, MatchEnd(pt, mt);
    OccursInSlice(text, pt.open, p, e, p);
    NameEndInSlice(text, pt, p, e, p + |pt.open|, m);
    FirstInSlice(text, pt.fence, p, e, m + TailLength(pt), j);
  }

  /** The name and the body read inside the match's own text are the captured ones. */
  lemma PartsInOwnText(text: string, pt: BlockPattern, mt: Match)
    requires IsMatch(text, pt, mt)
    ensures var s := MatchText(text, pt, mt);
      var inner := Match(0, mt.nameEnd - mt.start, mt.fence - mt.start);
      IsMatch(s, pt, inner) && Name(s, pt, inner) == Name(text, pt, mt) && Body(s, pt, inner) == Body(text, pt, mt)
  {
    var p, m, j, e := mt.start, mt.nameEnd, mt.fence, MatchEnd(pt, mt);
    MatchInOwnText(text, pt, mt);
    SliceOfSlice(text, p, e, |pt.open|, m - p + |pt.ext|);
    SliceOfSlice(text, p, e, m - p + TailLength(pt), j - p);
  }

  /** A search that finds a match where one is known to be the leftmost has found it. */
  lemma FirstIsKnown(text: string, pt: BlockPattern, r: Match, known: Match)
    requires IsMatch(text, pt, r) && NoMatchIn(text, pt, 0, r.start)
    requires IsMatch(text, pt, known) && NoMatchIn(text, pt, 0, known.start)
    ensures r == known
  {
    assert PosIs(text, r.start, pt, r.nameEnd, r.fence);
    assert PosIs(text, known.start, pt, known.nameEnd, known.fence);
    PosUnique(text, r.start, pt, r.nameEnd, r.fence, known.nameEnd, known.fence);
  }

  /** The `.tsx` opening holds `filename="` at offset 7 and no `f` before it. */
  lemma TsxOpenParts()
    ensures TsxPattern.open[7..] == NamePattern.open
    ensures forall i :: 0 <= i < 7 ==> TsxPattern.open[i] != 'f'
  {
  }

  /** In the text of a `.tsx` match, `/filename="(.*?\.tsx)"/` first matches at offset
      7, inside the opening, and captures the same name. */
  lemma NameMatchInOwnText(text: string, mt: Match)
    requires IsMatch(text, TsxPattern, mt)
    ensures var s := MatchText(text, TsxPattern, mt);
      var nm := Match(7, mt.nameEnd - mt.start, mt.nameEnd - mt.start + 5);
      && IsMatch(s, NamePattern, nm) && NoMatchIn(s, NamePattern, 0, 7)
      && Name(s, NamePattern, nm) == Name(text, TsxPattern, mt)
  {
    var s := MatchText(text, TsxPattern, mt);
    var inner := Match(0, mt.nameEnd - mt.start, mt.fence - mt.start);
    PartsInOwnText(text, TsxPattern, mt);
    var m := inner.nameEnd;
    TsxOpenParts();
    assert s[..17] == TsxPattern.open;
    assert s[7..17] == TsxPattern.open[7..];
    assert OccursAt(s, NamePattern.open, 7);
    assert OccursAt(s, NamePattern.fence, m + 5);
    SameNameEnd(s, 17, m);
    forall k: nat, m2: nat, j2: nat | 0 <= k < 7
      ensures !PosIs(s, k, NamePattern, m2, j2)
    {
      OccursChar(s, NamePattern.open, k, 0);
      assert s[k] == TsxPattern.open[k];
    }
  }

  /** The two patterns end the name alike. */
  lemma SameNameEnd(s: string, q: nat, m: nat)
    ensures NameEndsAt(s, q, TsxPattern, m) <==> NameEndsAt(s, q, NamePattern, m)
  {
    assert TsxPattern.ext == NamePattern.ext && TsxPattern.close == NamePattern.close;
    assert forall k: nat :: TailAt(s, TsxPattern, k) <==> TailAt(s, NamePattern, k);
  }

  // ---------------------------------------------------------------- client files

  /** A client component to write: the captured file name and the trimmed body. */
  datatype File = File(name: string, content: string)

  predicate EndsWithTsx(name: string) {
    |name| >= 4 && name[|name| - 4..] == ".tsx"
  }

  /** What every written client component satisfies: a `.tsx` name other than
      `Component.tsx`, and content that is non-empty and trimmed. */
  predicate WritableClientFile(f: File) {
    && f.name != "Component.tsx" && EndsWithTsx(f.name)
    && |f.content| > 0 && IsTrimmed(f.content)
  }

  /** One match through the chain: dropped when its text mentions
      `filename="Component.tsx"` or its trimmed body is empty, otherwise its name and
      trimmed body. */
  function ClientFile(text: string, mt: Match): (r: Option<File>)
    requires IsMatch(text, TsxPattern, mt)
    ensures r.Some? <==> !Contains(MatchText(text, TsxPattern, mt), ComponentFilename) && Trim(Body(text, TsxPattern, mt)) != ""
    ensures r.Some? ==> WritableClientFile(r.value)
  {
    MentionsOwnName(text, mt);
    if Contains(MatchText(text, TsxPattern, mt), ComponentFilename) || Trim(Body(text, TsxPattern, mt)) == "" then None
    else Some(File(Name(text, TsxPattern, mt), Trim(Body(text, TsxPattern, mt))))
  }

  /** A match names `Component.tsx` only when its text contains
      `filename="Component.tsx"`, so the first filter removes it; every name ends in
      `.tsx`. */
  lemma MentionsOwnName(text: string, mt: Match)
    requires IsMatch(text, TsxPattern, mt)
    ensures EndsWithTsx(Name(text, TsxPattern, mt))
    ensures Name(text, TsxPattern, mt) == "Component.tsx" ==> Contains(MatchText(text, TsxPattern, mt), ComponentFilename)
  {
    MatchShape(text, TsxPattern, mt);
    if Name(text, TsxPattern, mt) == "Component.tsx" {
      OwnNameOccurs(MatchText(text, TsxPattern, mt), Body(text, TsxPattern, mt));
    }
  }

  lemma OwnNameOccurs(s: string, body: string)
    requires s == TsxPattern.open + "Component.tsx" + TsxPattern.close + body + TsxPattern.fence
    ensures OccursAt(s, ComponentFilename, 7)
  {
    assert TsxPattern.open + "Component.tsx" + TsxPattern.close == "```tsx " + ComponentFilename;
    assert s == "```tsx " + ComponentFilename + (body + TsxPattern.fence);
    assert s[7..7 + |ComponentFilename|] == ComponentFilename;
  }

  /** The chain over the first `n` matches, in order. */
  function ClientFiles(text: string, ms: seq<Match>, n: nat): (r: seq<File>)
    requires n <= |ms|
    requires forall i :: 0 <= i < |ms| ==> IsMatch(text, TsxPattern, ms[i])
    ensures |r| <= n
    ensures forall f :: f in r ==> WritableClientFile(f)
  {
    if n == 0 then []
    else
      var last := ClientFile(text, ms[n - 1]);
      ClientFiles(text, ms, n - 1) + (if last.Some? then [last.value] else [])
  }

  /** What the `.map` reads back with `nameMatch` from the text of a match: the name
      the global match captured. `nm` is what the search for the name pattern found. */
  lemma NameReadBack(text: string, mt: Match, nm: Option<Match>)
    requires IsMatch(text, TsxPattern, mt)
    requires nm.Some? ==>
      IsMatch(MatchText(text, TsxPattern, mt), NamePattern, nm.value)
      && NoMatchIn(MatchText(text, TsxPattern, mt), NamePattern, 0, nm.value.start)
    requires nm.None? ==> NoMatchFrom(MatchText(text, TsxPattern, mt), NamePattern, 0)
    ensures nm.Some?
    ensures Name(MatchText(text, TsxPattern, mt), NamePattern, nm.value) == Name(text, TsxPattern, mt)
  {
    var s := MatchText(text, TsxPattern, mt);
    var known := Match(7, mt.nameEnd - mt.start, mt.nameEnd - mt.start + 5);
    NameMatchInOwnText(text, mt);
    assert PosIs(s, 7, NamePattern, known.nameEnd, known.fence);
    FirstIsKnown(s, NamePattern, nm.value, known);
  }

  /** What the `.map` reads back with `contentMatch` from the text of a match: the body
      the global match captured. `cm` is what the search for the `.tsx` pattern found. */
  lemma BodyReadBack(text: string, mt: Match, cm: Option<Match>)
    requires IsMatch(text, TsxPattern, mt)
    requires cm.Some? ==>
      IsMatch(MatchText(text, TsxPattern, mt), TsxPattern, cm.value)
      && NoMatchIn(MatchText(text, TsxPattern, mt), TsxPattern, 0, cm.value.start)
    requires cm.None? ==> NoMatchFrom(MatchText(text, TsxPattern, mt), TsxPattern, 0)
    ensures cm.Some?
    ensures Body(MatchText(text, TsxPattern, mt), TsxPattern, cm.value) == Body(text, TsxPattern, mt)
  {
    var s := MatchText(text, TsxPattern, mt);
    var known := Match(0, mt.nameEnd - mt.start, mt.fence - mt.start);
    PartsInOwnText(text, TsxPattern, mt);
    assert PosIs(s, 0, TsxPattern, known.nameEnd, known.fence);
    FirstIsKnown(s, TsxPattern, cm.value, known);
  }

  /** One match through `.filter`, `.map` (reading the name and the content back from
      the match's text with two more searches) and
      `.filter(file => file.name && file.content)`. */
  method ClientFileOf(text: string, mt: Match) returns (r: Option<File>)
    requires IsMatch(text, TsxPattern, mt)
    ensures r == ClientFile(text, mt)
  {
    var s := MatchText(text, TsxPattern, mt);
    if Contains(s, ComponentFilename) {
      return None;
    }
    var nm := FirstMatchFrom(s, NamePattern, 0);
    var cm := FirstMatchFrom(s, TsxPattern, 0);
    NameReadBack(text, mt, nm);
    BodyReadBack(text, mt, cm);
    var name := Name(s, NamePattern, nm.value);
    var content := Trim(Body(s, TsxPattern, cm.value));
    if name == "" || content == "" {
      return None;
    }
    return Some(File(name, content));
  }

  /** `interactiveFiles`: the global match, then the chain. The matches are returned
      with the files. */
  method InteractiveFiles(text: string) returns (ms: seq<Match>, files: seq<File>)
    ensures IsScan(text, TsxPattern, 0, ms)
    ensures forall i :: 0 <= i < |ms| ==> IsMatch(text, TsxPattern, ms[i])
    ensures files == ClientFiles(text, ms, |ms|)
  {
    ms := Scan(text, TsxPattern);
    ScanMatches(text, TsxPattern, 0, ms);
    files := [];
    for i := 0 to |ms|
      invariant files == ClientFiles(text, ms, i)
    {
      var f := ClientFileOf(text, ms[i]);
      files := files + (if f.Some? then [f.value] else []);
    }
  }
}
