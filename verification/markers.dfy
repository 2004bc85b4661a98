// The comment markers the block registration looks for, and what
// `String.prototype.replace` does with the first one.
//
// Each marker pattern is one capture group around `<lead><word>\*\/`, or around
// `<lead>\s*<word>\s*\*\/`. The script writes the lead as `\/*`, which matches any
// run of slashes, possibly none. The comment opening `/*` it evidently means would be
// `\/\*`. Both leads are modelled.
module Markers {
  import opened Wrappers
  import opened Text

  // ---------------------------------------------------------------- the patterns

  // `Slashes` is `\/*`, any run of `/`, possibly empty. `CommentOpen` is `\/\*`, the
  // two characters `/*`.
  datatype Lead = Slashes | CommentOpen

  /** A marker pattern. With `padded`, white space may surround the word. */
  datatype Marker = Marker(lead: Lead, word: string, padded: bool)

  const CommentOpening: string := "/*"
  const CommentClose: string := "*/"

  // `(\/* PLOP_IMPORTS \*\/)` of `RenderBlocks.tsx`.
  function ImportsMarker(lead: Lead): Marker { Marker(lead, " PLOP_IMPORTS ", false) }

  // `(\/* PLOP_EXPORTS \*\/)` of `RenderBlocks.tsx`.
  function ExportsMarker(lead: Lead): Marker { Marker(lead, " PLOP_EXPORTS ", false) }

  // `(\/*\s*PLOP_IMPORT_BLOCK_CONFIG\s*\*\/)` of the pages collection.
  function ConfigMarker(lead: Lead): Marker { Marker(lead, "PLOP_IMPORT_BLOCK_CONFIG", true) }

  // `(\/*\s*PLOP_BLOCKS\s*\*\/)` of the pages collection.
  function BlocksMarker(lead: Lead): Marker { Marker(lead, "PLOP_BLOCKS", true) }

  /** The word cannot continue the run before it: it does not start with `/` and,
      when padded, not with white space. Then the regular expression can match a
      position in one way only. */
  predicate WellFormed(m: Marker) {
    |m.word| > 0 && m.word[0] != '/' && (m.padded ==> !IsJsWhitespace(m.word[0]))
  }

  lemma MarkersWellFormed(lead: Lead)
    ensures WellFormed(ImportsMarker(lead)) && WellFormed(ExportsMarker(lead))
    ensures WellFormed(ConfigMarker(lead)) && WellFormed(BlocksMarker(lead))
  {
  }

  // ---------------------------------------------------------------- matching at a position

  // The two kinds of greedy run: `\/*` and `\s*`.
  datatype Run = SlashRun | SpaceRun

  predicate InRun(run: Run, c: char) {
    if run == SlashRun then c == '/' else IsJsWhitespace(c)
  }

  /** The end of the longest run starting at `k`. */
  function SkipRun(text: string, run: Run, k: nat): (r: nat)
    requires k <= |text|
    ensures k <= r <= |text|
    decreases |text| - k
  {
    if k < |text| && InRun(run, text[k]) then SkipRun(text, run, k + 1) else k
  }

  /** What the skip passes over belongs to the run, and what it stops at does not. */
  lemma {:induction false} RunSkipped(text: string, run: Run, k: nat)
    requires k <= |text|
    ensures forall i :: k <= i < SkipRun(text, run, k) ==> InRun(run, text[i])
    ensures SkipRun(text, run, k) < |text| ==> !InRun(run, text[SkipRun(text, run, k)])
    decreases |text| - k
  {
    if k < |text| && InRun(run, text[k]) {
      RunSkipped(text, run, k + 1);
    }
  }

  /** A run that stops before a character outside it is the longest one. */
  lemma RunEnd(text: string, run: Run, k: nat, r: nat)
    requires k <= r <= |text|
    requires forall i :: k <= i < r ==> InRun(run, text[i])
    requires r < |text| ==> !InRun(run, text[r])
    ensures SkipRun(text, run, k) == r
  {
    RunSkipped(text, run, k);
  }

  /** Where the lead of the pattern ends when it matches at `p`. */
  function LeadEnd(text: string, lead: Lead, p: nat): (r: Option<nat>)
    requires p <= |text|
    ensures r.Some? ==> p <= r.value <= |text|
  {
    if lead == Slashes then Some(SkipRun(text, SlashRun, p))
    else if OccursAt(text, CommentOpening, p) then Some(p + 2)
    else None
  }

  /** Where the optional white space from `k` ends. */
  function PadEnd(text: string, m: Marker, k: nat): (r: nat)
    requires k <= |text|
    ensures k <= r <= |text|
  {
    if m.padded then SkipRun(text, SpaceRun, k) else k
  }

  /** The end of the match of `m` starting at `p`, if there is one, reading the
      pattern left to right with each run as long as it goes. */
  function MarkerEnd(text: string, m: Marker, p: nat): (r: Option<nat>)
    requires p <= |text|
    ensures r.Some? ==> p < r.value <= |text|
  {
    var q := LeadEnd(text, m.lead, p);
    if q.None? then None
    else
      var w := PadEnd(text, m, q.value);
      if !OccursAt(text, m.word, w) then None
      else
        var v := PadEnd(text, m, w + |m.word|);
        if OccursAt(text, CommentClose, v) then Some(v + 2) else None
  }

  /** The lead spans `text[p..q]`. */
  ghost predicate LeadSpans(text: string, lead: Lead, p: nat, q: nat) {
    if lead == Slashes then p <= q <= |text| && forall i :: p <= i < q ==> text[i] == '/'
    else q == p + 2 && OccursAt(text, CommentOpening, p)
  }

  /** The optional white space spans `text[a..b]`. */
  ghost predicate PadSpans(text: string, m: Marker, a: nat, b: nat) {
    if m.padded then a <= b <= |text| && forall i :: a <= i < b ==> IsJsWhitespace(text[i])
    else b == a
  }

  // One way the pattern matches at `p`: the lead up to `q`, white space up to `w`, the
  // word, white space up to `v`, and the closing `*/`.
  ghost predicate Splits(text: string, m: Marker, p: nat, q: nat, w: nat, v: nat) {
    && LeadSpans(text, m.lead, p, q)
    && PadSpans(text, m, q, w)
    && OccursAt(text, m.word, w)
    && PadSpans(text, m, w + |m.word|, v)
    && OccursAt(text, CommentClose, v)
  }

  /** The pattern matches `text[p..e]`, in some way. */
  ghost predicate MatchesAt(text: string, m: Marker, p: nat, e: nat) {
    exists q: nat, w: nat, v: nat :: Splits(text, m, p, q, w, v) && e == v + 2
  }

  /** Reading the pattern greedily finds exactly the matches the pattern has. */
  lemma MarkerEndMeans(text: string, m: Marker, p: nat, e: nat)
    requires WellFormed(m) && p <= |text|
    ensures MarkerEnd(text, m, p) == Some(e) <==> MatchesAt(text, m, p, e)
  {
    if MarkerEnd(text, m, p) == Some(e) {
      GreedySplits(text, m, p);
    }
    if MatchesAt(text, m, p, e) {
      var q: nat, w: nat, v: nat :| Splits(text, m, p, q, w, v) && e == v + 2;
      SplitsForced(text, m, p, q, w, v);
    }
  }

  /** The greedy reading is one way of matching. */
  lemma GreedySplits(text: string, m: Marker, p: nat)
    requires p <= |text| && MarkerEnd(text, m, p).Some?
    ensures MatchesAt(text, m, p, MarkerEnd(text, m, p).value)
  {
    var q := LeadEnd(text, m.lead, p).value;
    var w := PadEnd(text, m, q);
    assert OccursAt(text, m.word, w);
    var v := PadEnd(text, m, w + |m.word|);
    LeadSpansTo(text, m.lead, p);
    PadSpansTo(text, m, q);
    PadSpansTo(text, m, w + |m.word|);
    assert Splits(text, m, p, q, w, v);
  }

  lemma LeadSpansTo(text: string, lead: Lead, p: nat)
    requires p <= |text| && LeadEnd(text, lead, p).Some?
    ensures LeadSpans(text, lead, p, LeadEnd(text, lead, p).value)
  {
    RunSkipped(text, SlashRun, p);
  }

  lemma PadSpansTo(text: string, m: Marker, k: nat)
    requires k <= |text|
    ensures PadSpans(text, m, k, PadEnd(text, m, k))
  {
    RunSkipped(text, SpaceRun, k);
  }

  /** Every way of matching at `p` is the greedy one. */
  lemma SplitsForced(text: string, m: Marker, p: nat, q: nat, w: nat, v: nat)
    requires WellFormed(m) && p <= |text| && Splits(text, m, p, q, w, v)
    ensures LeadEnd(text, m.lead, p) == Some(q)
    ensures PadEnd(text, m, q) == w && PadEnd(text, m, w + |m.word|) == v
    ensures MarkerEnd(text, m, p) == Some(v + 2)
  {
    OccursChar(text, m.word, w, 0);
    OccursChar(text, CommentClose, v, 0);
    LeadForced(text, m, p, q, w);
    PadForced(text, m, q, w);
    PadForced(text, m, w + |m.word|, v);
  }

  /** The slash run stops where the white space or the word begins. */
  lemma LeadForced(text: string, m: Marker, p: nat, q: nat, w: nat)
    requires WellFormed(m) && LeadSpans(text, m.lead, p, q) && PadSpans(text, m, q, w)
    requires w < |text| && text[w] == m.word[0]
    ensures LeadEnd(text, m.lead, p) == Some(q)
  {
    if m.lead == Slashes {
      assert q < |text| && text[q] != '/' by {
        if q < w {
          assert IsJsWhitespace(text[q]);
        }
      }
      RunEnd(text, SlashRun, p, q);
    }
  }

  /** White space stops before a character that is not white space. */
  lemma PadForced(text: string, m: Marker, a: nat, b: nat)
    requires b <= |text| && PadSpans(text, m, a, b) && (m.padded ==> b < |text| && !IsJsWhitespace(text[b]))
    ensures PadEnd(text, m, a) == b
  {
    if m.padded {
      RunEnd(text, SpaceRun, a, b);
    }
  }

  // ---------------------------------------------------------------- the search

  /** A match: where it starts and where it ends. */
  datatype Hit = Hit(start: nat, end: nat)

  /** The leftmost match at or after `p`: the search of a pattern without the `g` flag. */
  function FindMarker(text: string, m: Marker, p: nat): (r: Option<Hit>)
    requires p <= |text|
    ensures r.Some? ==> p <= r.value.start <= |text| && MarkerEnd(text, m, r.value.start) == Some(r.value.end)
    decreases |text| - p
  {
    match MarkerEnd(text, m, p)
    case Some(e) => Some(Hit(p, e))
    case None => if p == |text| then None else FindMarker(text, m, p + 1)
  }

  /** No match starts in `[a, b)`. */
  predicate NoMarkerIn(text: string, m: Marker, a: nat, b: nat)
    requires b <= |text| + 1
  {
    forall k :: a <= k < b ==> MarkerEnd(text, m, k).None?
  }

  /** The search finds the leftmost match, and finds nothing only when no position
      matches. */
  lemma {:induction false} FindMarkerLeftmost(text: string, m: Marker, p: nat)
    requires p <= |text|
    ensures FindMarker(text, m, p).Some? ==> NoMarkerIn(text, m, p, FindMarker(text, m, p).value.start)
    ensures FindMarker(text, m, p).None? <==> NoMarkerIn(text, m, p, |text| + 1)
    decreases |text| - p
  {
    if MarkerEnd(text, m, p).None? && p < |text| {
      FindMarkerLeftmost(text, m, p + 1);
    }
  }

  /** A match with none before it is what the search finds. */
  lemma {:induction false} FindMarkerAt(text: string, m: Marker, p: nat, k: nat, e: nat)
    requires p <= k <= |text| && NoMarkerIn(text, m, p, k) && MarkerEnd(text, m, k) == Some(e)
    ensures FindMarker(text, m, p) == Some(Hit(k, e))
    decreases k - p
  {
    if p < k {
      FindMarkerAt(text, m, p + 1, k, e);
    }
  }

  // ---------------------------------------------------------------- replacement

  /** The replacement template as `replace` expands it for a pattern whose one capture
      group is the whole match (the abstract operation GetSubstitution of ECMAScript):
      `$$` is a dollar; `$&`, `$1` and `$01` are the match (a two-digit `$1n` means
      `$1` and the digit `n`); `` $` `` is the text before the match and `$'` the text
      after it. Any other `$` stands for itself. */
  function Substitute(t: string, matched: string, before: string, after: string): string
    decreases |t|
  {
    if |t| == 0 then ""
    else if t[0] != '$' || |t| == 1 then [t[0]] + Substitute(t[1..], matched, before, after)
    else if t[1] == '$' then "$" + Substitute(t[2..], matched, before, after)
    else if t[1] == '&' || t[1] == '1' then matched + Substitute(t[2..], matched, before, after)
    else if t[1] == '0' && |t| > 2 && t[2] == '1' then matched + Substitute(t[3..], matched, before, after)
    else if t[1] == '`' then before + Substitute(t[2..], matched, before, after)
    else if t[1] == '\'' then after + Substitute(t[2..], matched, before, after)
    else "$" + Substitute(t[1..], matched, before, after)
  }

  predicate NoDollar(s: string) {
    forall i :: 0 <= i < |s| ==> s[i] != '$'
  }

  /** Text without `$` passes through the expansion unchanged. */
  lemma {:induction false} SubstituteLiteral(s: string, t: string, matched: string, before: string, after: string)
    requires NoDollar(s)
    ensures Substitute(s + t, matched, before, after) == s + Substitute(t, matched, before, after)
    decreases |s|
  {
    if |s| > 0 {
      assert (s + t)[0] == s[0] && (s + t)[1..] == s[1..] + t;
      assert Substitute(s + t, matched, before, after) == [s[0]] + Substitute(s[1..] + t, matched, before, after);
      SubstituteLiteral(s[1..], t, matched, before, after);
      assert s == [s[0]] + s[1..];
    } else {
      assert s + t == t;
    }
  }

  /** The two templates the script uses, `<text>$1` and `<text>$&`, put `<text>` in
      front of the match when `<text>` holds no `$`. */
  lemma InsertTemplate(ins: string, group: string, matched: string, before: string, after: string)
    requires NoDollar(ins) && (group == "$1" || group == "$&")
    ensures Substitute(ins + group, matched, before, after) == ins + matched
  {
    SubstituteLiteral(ins, group, matched, before, after);
  }

  /** A match in `text`: it starts no later than it ends, and ends inside the text. */
  predicate InText(text: string, h: Option<Hit>) {
    h.Some? ==> h.value.start <= h.value.end <= |text|
  }

  /** The match `h`, if any, replaced by the expanded template; the rest of the text
      is kept. */
  function ReplaceHit(text: string, h: Option<Hit>, template: string): (r: string)
    requires InText(text, h)
    ensures h.None? ==> r == text
    ensures h.Some? ==>
      |r| >= h.value.start + |text| - h.value.end && r[..h.value.start] == text[..h.value.start]
      && r[|r| - (|text| - h.value.end)..] == text[h.value.end..]
  {
    match h
    case None => text
    case Some(h) =>
      var before := text[..h.start];
      var after := text[h.end..];
      var r := before + Substitute(template, text[h.start..h.end], before, after) + after;
      assert r[..h.start] == before;
      assert r[|r| - |after|..] == after;
      r
  }

  /** `text.replace(pattern, template)` without `g`: the first match is replaced by the
      expanded template, and a text without a match is returned as it is. */
  function ReplaceFirst(text: string, m: Marker, template: string): string {
    ReplaceHit(text, FindMarker(text, m, 0), template)
  }

  /** `ins` placed right before the match `h`; the text as it is without one. */
  function InsertAt(text: string, h: Option<Hit>, ins: string): string
    requires InText(text, h)
  {
    match h
    case None => text
    case Some(h) => text[..h.start] + ins + text[h.start..]
  }

  /** Text placed right before the first match; the text as it is without one. */
  function InsertBeforeMarker(text: string, m: Marker, ins: string): string {
    InsertAt(text, FindMarker(text, m, 0), ins)
  }

  /** The two templates the script uses put their text in front of the match and
      change nothing else, as long as the text holds no `$`. */
  lemma ReplaceHitInserts(text: string, h: Option<Hit>, ins: string, group: string)
    requires InText(text, h) && NoDollar(ins) && (group == "$1" || group == "$&")
    ensures ReplaceHit(text, h, ins + group) == InsertAt(text, h, ins)
  {
    if h.Some? {
      var x := h.value;
      InsertTemplate(ins, group, text[x.start..x.end], text[..x.start], text[x.end..]);
      assert text[x.start..x.end] + text[x.end..] == text[x.start..];
    }
  }

  /** The replacements the registration makes insert their text before the first match
      and change nothing else, as long as the text holds no `$`. */
  lemma ReplaceInserts(text: string, m: Marker, ins: string, group: string)
    requires NoDollar(ins) && (group == "$1" || group == "$&")
    ensures ReplaceFirst(text, m, ins + group) == InsertBeforeMarker(text, m, ins)
  {
    ReplaceHitInserts(text, FindMarker(text, m, 0), ins, group);
  }

  // ---------------------------------------------------------------- where the insertion lands

  // As written, the pattern never matches at a comment opening: the slash run stops
  // at the `*`, which the word cannot start with. So the inserted text never lands in
  // front of `/*`.
  lemma SlashesMissOpening(text: string, m: Marker, p: nat)
    requires WellFormed(m) && m.lead == Slashes && m.word[0] != '*' && p <= |text|
    requires OccursAt(text, CommentOpening, p)
    ensures MarkerEnd(text, m, p).None?
  {
    OccursChar(text, CommentOpening, p, 0);
    OccursChar(text, CommentOpening, p, 1);
    RunEnd(text, SlashRun, p, p + 1);
    if m.padded {
      RunEnd(text, SpaceRun, p + 1, p + 1);
    }
    OccursChar(text, m.word, p + 1, 0);
  }

  // With `\/\*` every match starts at a comment opening, and an unpadded marker's
  // match is exactly `/*`, the word and `*/`.
  lemma CommentOpenMatches(text: string, m: Marker, p: nat)
    requires m.lead == CommentOpen && p <= |text| && MarkerEnd(text, m, p).Some?
    ensures OccursAt(text, CommentOpening, p)
    ensures !m.padded ==> text[p..MarkerEnd(text, m, p).value] == CommentOpening + m.word + CommentClose
  {
    if !m.padded {
      var e := MarkerEnd(text, m, p).value;
      assert text[p..e] == text[p..p + 2] + text[p + 2..p + 2 + |m.word|] + text[p + 2 + |m.word|..e];
    }
  }

  // What the marker comment holds between `/*` and `*/`: the word, with one space on
  // each side when the pattern allows white space around it.
  function Inner(m: Marker): string {
    if m.padded then " " + m.word + " " else m.word
  }

  /** Where the word starts in a marker comment that starts at `p`. */
  function WordAt(m: Marker, p: nat): nat {
    if m.padded then p + 3 else p + 2
  }

  // The marker comment a pattern is written for: `/* PLOP_IMPORTS */` for the unpadded
  // markers and, for the padded ones, `/* PLOP_BLOCKS */` with single spaces.
  function Comment(m: Marker): string {
    CommentOpening + Inner(m) + CommentClose
  }

  /** A text holding the comment holds its pieces: the opening, the word (between single
      spaces when padded) and the closing. */
  lemma CommentPieces(text: string, m: Marker, p: nat)
    requires OccursAt(text, Comment(m), p)
    ensures OccursAt(text, CommentOpening, p) && OccursAt(text, m.word, WordAt(m, p))
    ensures OccursAt(text, CommentClose, p + 2 + |Inner(m)|)
    ensures m.padded ==> text[p + 2] == ' ' && text[p + 3 + |m.word|] == ' '
    ensures |Comment(m)| == 2 + |Inner(m)| + 2
  {
    OccursSplit(text, CommentOpening + Inner(m), CommentClose, p);
    OccursSplit(text, CommentOpening, Inner(m), p);
    if m.padded {
      OccursSplit(text, " " + m.word, " ", p + 2);
      OccursSplit(text, " ", m.word, p + 2);
      OccursChar(text, " ", p + 2, 0);
      OccursChar(text, " ", p + 3 + |m.word|, 0);
    }
  }

  // After the word of a comment at `p`, the optional white space runs to the `*/`.
  lemma PadAfterWord(text: string, m: Marker, p: nat)
    requires OccursAt(text, Comment(m), p)
    ensures WordAt(m, p) + |m.word| <= |text|
    ensures PadEnd(text, m, WordAt(m, p) + |m.word|) == p + 2 + |Inner(m)|
  {
    CommentPieces(text, m, p);
    if m.padded {
      OccursChar(text, CommentClose, p + 2 + |Inner(m)|, 0);
      RunEnd(text, SpaceRun, p + 3 + |m.word|, p + 4 + |m.word|);
    }
  }

  /** With `\/\*` a pattern matches its comment from the `/`. */
  lemma CommentOpenFindsComment(text: string, m: Marker, p: nat)
    requires m.lead == CommentOpen && (m.padded ==> WellFormed(m)) && OccursAt(text, Comment(m), p)
    ensures MarkerEnd(text, m, p) == Some(p + |Comment(m)|)
  {
    CommentPieces(text, m, p);
    if m.padded {
      OccursChar(text, m.word, p + 3, 0);
      RunEnd(text, SpaceRun, p + 2, p + 3);
    }
    PadAfterWord(text, m, p);
  }

  /** As written, a pattern whose word starts with neither `/` nor `*` misses the
      comment's `/` and `*` and matches from the character after them. */
  lemma SlashesFindInside(text: string, m: Marker, p: nat)
    requires m.lead == Slashes && WellFormed(m) && m.word[0] != '*'
    requires OccursAt(text, Comment(m), p)
    ensures MarkerEnd(text, m, p).None? && MarkerEnd(text, m, p + 1).None?
    ensures MarkerEnd(text, m, p + 2) == Some(p + |Comment(m)|)
  {
    CommentPieces(text, m, p);
    SlashesMissOpening(text, m, p);
    SlashesMissStar(text, m, p);
    SlashesMatchAfterOpening(text, m, p);
  }

  lemma SlashesMissStar(text: string, m: Marker, p: nat)
    requires m.lead == Slashes && WellFormed(m) && m.word[0] != '*'
    requires OccursAt(text, CommentOpening, p) && p + 2 <= |text|
    ensures MarkerEnd(text, m, p + 1).None?
  {
    OccursChar(text, CommentOpening, p, 1);
    RunEnd(text, SlashRun, p + 1, p + 1);
    if m.padded {
      RunEnd(text, SpaceRun, p + 1, p + 1);
    }
    OccursChar(text, m.word, p + 1, 0);
  }

  lemma SlashesMatchAfterOpening(text: string, m: Marker, p: nat)
    requires m.lead == Slashes && WellFormed(m)
    requires OccursAt(text, Comment(m), p)
    ensures MarkerEnd(text, m, p + 2) == Some(p + |Comment(m)|)
  {
    CommentPieces(text, m, p);
    OccursChar(text, m.word, WordAt(m, p), 0);
    RunEnd(text, SlashRun, p + 2, p + 2);
    if m.padded {
      RunEnd(text, SpaceRun, p + 2, p + 3);
    }
    PadAfterWord(text, m, p);
  }

  lemma OccursInMiddle(pre: string, c: string, post: string)
    ensures OccursAt(pre + c + post, c, |pre|)
  {
    assert (pre + c + post)[|pre|..|pre| + |c|] == c;
  }

  // The four markers of the script stand for the comments `/* PLOP_IMPORTS */`,
  // `/* PLOP_EXPORTS */`, `/* PLOP_IMPORT_BLOCK_CONFIG */` and `/* PLOP_BLOCKS */`, and
  // no word starts with `*`, so the two lemmas below apply to each of them.
  lemma ScriptComments(lead: Lead)
    ensures Comment(ImportsMarker(lead)) == "/* PLOP_IMPORTS */"
    ensures Comment(ExportsMarker(lead)) == "/* PLOP_EXPORTS */"
    ensures ConfigMarker(lead).word == "PLOP_IMPORT_BLOCK_CONFIG" && BlocksMarker(lead).word == "PLOP_BLOCKS"
    ensures Comment(ConfigMarker(lead)) == "/* " + ConfigMarker(lead).word + " */"
    ensures Comment(BlocksMarker(lead)) == "/* " + BlocksMarker(lead).word + " */"
    ensures ImportsMarker(lead).word[0] != '*' && ExportsMarker(lead).word[0] != '*'
    ensures ConfigMarker(lead).word[0] != '*' && BlocksMarker(lead).word[0] != '*'
  {
    assert Comment(ImportsMarker(lead)) == "/*" + " PLOP_IMPORTS " + "*/";
    assert Comment(ExportsMarker(lead)) == "/*" + " PLOP_EXPORTS " + "*/";
  }

  // The finding, as written: in a text whose first match lies in the marker comment,
  // the inserted text lands inside the comment, after its `/*`. In a `.tsx` or `.ts`
  // file that comments the inserted line out.
  lemma InsertsInsideComment(pre: string, m: Marker, post: string, ins: string, group: string)
    requires m.lead == Slashes && WellFormed(m) && m.word[0] != '*'
    requires NoDollar(ins) && (group == "$1" || group == "$&")
    requires NoMarkerIn(pre + Comment(m) + post, m, 0, |pre|)
    ensures ReplaceFirst(pre + Comment(m) + post, m, ins + group)
      == pre + CommentOpening + ins + Inner(m) + CommentClose + post
  {
    var text := pre + Comment(m) + post;
    OccursInMiddle(pre, Comment(m), post);
    FirstInsideComment(text, m, |pre|);
    InsertAtFound(text, m, Hit(|pre| + 2, |pre| + |Comment(m)|), ins, group);
    InsertAfterOpening(pre, m, post, ins);
  }

  lemma InsertAfterOpening(pre: string, m: Marker, post: string, ins: string)
    ensures var text := pre + Comment(m) + post;
      text[..|pre| + 2] + ins + text[|pre| + 2..] == pre + CommentOpening + ins + Inner(m) + CommentClose + post
  {
    var text := pre + Comment(m) + post;
    assert text == (pre + CommentOpening) + (Inner(m) + CommentClose + post);
    assert text[..|pre| + 2] == pre + CommentOpening;
    assert text[|pre| + 2..] == Inner(m) + CommentClose + post;
  }

  /** The search for the as-written pattern, with no match before the comment at `p`,
      finds the match from `p + 2`. */
  lemma FirstInsideComment(text: string, m: Marker, p: nat)
    requires m.lead == Slashes && WellFormed(m) && m.word[0] != '*'
    requires OccursAt(text, Comment(m), p) && NoMarkerIn(text, m, 0, p)
    ensures FindMarker(text, m, 0) == Some(Hit(p + 2, p + |Comment(m)|))
  {
    SlashesFindInside(text, m, p);
    NoMarkerExtend(text, m, p);
    FindMarkerAt(text, m, 0, p + 2, p + |Comment(m)|);
  }

  /** No match before `p`, and none at `p` or `p + 1`: none before `p + 2`. */
  lemma NoMarkerExtend(text: string, m: Marker, p: nat)
    requires p + 2 <= |text| && NoMarkerIn(text, m, 0, p)
    requires MarkerEnd(text, m, p).None? && MarkerEnd(text, m, p + 1).None?
    ensures NoMarkerIn(text, m, 0, p + 2)
  {
  }

  /** The corrected pattern: the inserted text lands in front of the marker comment. */
  lemma InsertsBeforeComment(pre: string, m: Marker, post: string, ins: string, group: string)
    requires m.lead == CommentOpen && (m.padded ==> WellFormed(m))
    requires NoDollar(ins) && (group == "$1" || group == "$&")
    requires NoMarkerIn(pre + Comment(m) + post, m, 0, |pre|)
    ensures ReplaceFirst(pre + Comment(m) + post, m, ins + group) == pre + ins + Comment(m) + post
  {
    var text := pre + Comment(m) + post;
    OccursInMiddle(pre, Comment(m), post);
    FirstAtComment(text, m, |pre|);
    InsertAtFound(text, m, Hit(|pre|, |pre| + |Comment(m)|), ins, group);
    assert text == pre + (Comment(m) + post);
  }

  /** The search for the corrected pattern, with no match before the comment, finds the
      comment. */
  lemma FirstAtComment(text: string, m: Marker, p: nat)
    requires m.lead == CommentOpen && (m.padded ==> WellFormed(m))
    requires OccursAt(text, Comment(m), p) && NoMarkerIn(text, m, 0, p)
    ensures FindMarker(text, m, 0) == Some(Hit(p, p + |Comment(m)|))
  {
    CommentOpenFindsComment(text, m, p);
    FindMarkerAt(text, m, 0, p, p + |Comment(m)|);
  }

  /** With the first match known, the replacement inserts the text in front of it. */
  lemma InsertAtFound(text: string, m: Marker, h: Hit, ins: string, group: string)
    requires FindMarker(text, m, 0) == Some(h)
    requires NoDollar(ins) && (group == "$1" || group == "$&")
    ensures ReplaceFirst(text, m, ins + group) == text[..h.start] + ins + text[h.start..]
  {
    ReplaceHitInserts(text, Some(h), ins, group);
  }
}
