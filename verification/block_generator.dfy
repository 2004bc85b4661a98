/** The string logic of the block generator: the category and slug derived from a
    block name, and the parsing of the answer pasted back from the code assistant, which
    must hold a fenced `config.ts` block and a fenced `Component.tsx` block and may hold
    further fenced `.tsx` blocks for client components.

    Each regular expression is modelled by the match it produces. A lazy `*?` stops at
    the first place where the rest of the pattern can match, and the rest of every
    pattern here can fail only when no closing fence follows at all, so the first
    candidate is the match. */
module BlockGenerator {
  import opened Wrappers
  import opened Text
  import TsxBlocks

  // ---------------------------------------------------------------- names

  /** The longest prefix of ASCII letters. */
  function LeadingLetters(s: string): (r: string)
    ensures |r| <= |s| && r == s[..|r|]
    ensures forall i :: 0 <= i < |r| ==> IsAsciiLetter(r[i])
    ensures |r| < |s| ==> !IsAsciiLetter(s[|r|])
  {
    if |s| > 0 && IsAsciiLetter(s[0]) then [s[0]] + LeadingLetters(s[1..]) else []
  }

  const DefaultCategory: string := "Layout"

  /** `extractCategory`: the match of `^([A-Za-z]+)`, or "Layout" when the name does not
      start with a letter. */
  function ExtractCategory(blockName: string): (r: string)
    ensures |r| > 0 && forall i :: 0 <= i < |r| ==> IsAsciiLetter(r[i])
    ensures |blockName| > 0 && IsAsciiLetter(blockName[0]) ==>
      |r| <= |blockName| && r == blockName[..|r|] && (|r| < |blockName| ==> !IsAsciiLetter(blockName[|r|]))
    ensures !(|blockName| > 0 && IsAsciiLetter(blockName[0])) ==> r == DefaultCategory
  {
    var w := LeadingLetters(blockName);
    if |w| > 0 then w else DefaultCategory
  }

  /** The category is the word of letters the name starts with: "Layout1" is in
      "Layout", "CTA1" in "CTA", and a name such as "123" falls back to "Layout". */
  lemma CategoryOfName(word: string, rest: string)
    requires |word| > 0 && forall i :: 0 <= i < |word| ==> IsAsciiLetter(word[i])
    requires |rest| > 0 ==> !IsAsciiLetter(rest[0])
    ensures ExtractCategory(word + rest) == word
  {
    var s := word + rest;
    assert forall i :: 0 <= i < |word| ==> s[i] == word[i];
    assert |rest| > 0 ==> s[|word|] == rest[0];
  }

  /** The block slug, `blockName.toLowerCase()`. */
  function Slug(blockName: string): (r: string)
    ensures |r| == |blockName|
    ensures forall i :: 0 <= i < |r| ==> !IsAsciiUpper(r[i])
    ensures forall i :: 0 <= i < |r| ==> (IsAsciiLetter(blockName[i]) <==> IsAsciiLetter(r[i]))
    ensures forall i :: 0 <= i < |r| ==> !IsAsciiLetter(blockName[i]) ==> r[i] == blockName[i]
  {
    ToLowerAscii(blockName)
  }

  /** The slug of a slug is itself. */
  lemma SlugIdempotent(blockName: string)
    ensures Slug(Slug(blockName)) == Slug(blockName)
  {
  }

  // ---------------------------------------------------------------- fenced blocks

  const Fence: string := "```"

  const ConfigOpen: string := "```typescript filename=\"config.ts\""

  const ComponentOpen: string := "```tsx filename=\"Component.tsx\""

  /** `body` holds no closing fence: no "```" starts inside it, even one that would run
      on into a fence placed after it. */
  predicate NoFence(body: string) {
    forall k :: 0 <= k < |body| ==> !OccursAt(body + Fence, Fence, k)
  }

  /** Where `open ([\s\S]*?)```` matches: the opening tag starts at `start` and the
      body ends at `bodyEnd`, where the closing fence starts. */
  datatype Span = Span(start: nat, bodyEnd: nat)

  /** The first occurrence of the opening tag, then the first fence after it. */
  function FindFenced(text: string, open: string): (r: Option<Span>)
    ensures r.Some? ==> r.value.start + |open| <= r.value.bodyEnd && r.value.bodyEnd + |Fence| <= |text|
  {
    match FindFrom(text, open, 0)
    case None => None
    case Some(k) =>
      match FindFrom(text, Fence, k + |open|)
      case None => None
      case Some(j) => Some(Span(k, j))
  }

  /** The match starts at the leftmost opening tag and its body runs to the first fence
      after the tag; there is no match when the tag is missing or no fence follows it. */
  lemma FindFencedMeans(text: string, open: string)
    ensures var r := FindFenced(text, open);
      r.Some? ==> IsFirstFrom(text, open, 0, r.value.start) && IsFirstFrom(text, Fence, r.value.start + |open|, r.value.bodyEnd)
    ensures var r := FindFenced(text, open);
      r.None? ==>
        || NoneFrom(text, open, 0)
        || (FindFrom(text, open, 0).Some? && NoneFrom(text, Fence, FindFrom(text, open, 0).value + |open|))
  {
    FindFromSome(text, open, 0);
    FindFromNone(text, open, 0);
    if FindFrom(text, open, 0).Some? {
      FindFromSome(text, Fence, FindFrom(text, open, 0).value + |open|);
      FindFromNone(text, Fence, FindFrom(text, open, 0).value + |open|);
    }
  }

  /** The group captured by `open([\s\S]*?)```)`. */
  function FencedBody(text: string, open: string): (r: Option<string>)
    ensures r.Some? <==> FindFenced(text, open).Some?
  {
    match FindFenced(text, open)
    case None => None
    case Some(sp) => Some(text[sp.start + |open|..sp.bodyEnd])
  }

  /** `text.match(open([\s\S]*?)```)` followed by `[1].trim()`. */
  function ExtractFenced(text: string, open: string): (r: Option<string>)
    ensures r.Some? ==> IsTrimmed(r.value)
    ensures r.Some? <==> FindFenced(text, open).Some?
  {
    match FencedBody(text, open)
    case None => None
    case Some(body) => Some(Trim(body))
  }

  /** The first occurrence of `open` in a text that starts with `pre + open` is the
      written one when none starts inside `pre`. */
  lemma FirstTagAt(pre: string, open: string, text: string)
    requires forall k :: 0 <= k < |pre| ==> !OccursAt(pre + open, open, k)
    requires |pre| + |open| <= |text| && text[..|pre| + |open|] == pre + open
    ensures FindFrom(text, open, 0) == Some(|pre|)
  {
    var a := |pre| + |open|;
    assert text[|pre|..a] == (pre + open)[|pre|..];
    assert OccursAt(text, open, |pre|);
    forall k | 0 <= k < |pre|
      ensures !OccursAt(text, open, k)
    {
      OccursInSlice(text, open, 0, a, k);
    }
    FindFromAt(text, open, 0, |pre|);
  }

  /** The first fence after `x` in `x + body + Fence + post` closes `body`. */
  lemma FenceAfterBody(text: string, a: nat, body: string)
    requires NoFence(body)
    requires a + |body| + |Fence| <= |text| && text[a..a + |body| + |Fence|] == body + Fence
    ensures FindFrom(text, Fence, a) == Some(a + |body|)
  {
    var b := a + |body|;
    assert text[b..b + 3] == (body + Fence)[|body|..];
    assert OccursAt(text, Fence, b);
    forall j | a <= j < b
      ensures !OccursAt(text, Fence, j)
    {
      OccursInSlice(text, Fence, a, b + 3, j);
    }
    FindFromAt(text, Fence, a, b);
  }

  lemma BodyBeforeFence(text: string, a: nat, body: string)
    requires a + |body| + |Fence| <= |text| && text[a..a + |body| + |Fence|] == body + Fence
    ensures text[a..a + |body|] == body
  {
    assert text[a..a + |body|] == text[a..a + |body| + |Fence|][..|body|];
  }

  lemma FindFencedAt(text: string, open: string, k: nat, j: nat)
    requires FindFrom(text, open, 0) == Some(k) && FindFrom(text, Fence, k + |open|) == Some(j)
    ensures FindFenced(text, open) == Some(Span(k, j))
  {
  }

  lemma BodyOfSpan(text: string, open: string, k: nat, j: nat)
    requires FindFenced(text, open) == Some(Span(k, j))
    requires k + |open| <= j <= |text|
    ensures FencedBody(text, open) == Some(text[k + |open|..j])
  {
  }

  lemma ExtractOfBody(text: string, open: string, body: string)
    requires FencedBody(text, open) == Some(body)
    ensures ExtractFenced(text, open) == Some(Trim(body))
  {
  }

  /** A text that starts with `x + y` holds `x` at its start and `y` after it. */
  lemma PrefixPieces(text: string, x: string, y: string)
    requires |x + y| <= |text| && text[..|x + y|] == x + y
    ensures text[..|x|] == x && text[|x|..|x| + |y|] == y
  {
    assert text[..|x|] == (x + y)[..|x|];
    assert text[|x|..|x| + |y|] == (x + y)[|x|..];
  }

  /** The parse of a text whose tag and fence searches stop at `k` and `j`. */
  lemma FencedBodyAt(text: string, open: string, k: nat, j: nat, body: string)
    requires FindFrom(text, open, 0) == Some(k) && FindFrom(text, Fence, k + |open|) == Some(j)
    requires k + |open| <= j <= |text| && text[k + |open|..j] == body
    ensures ExtractFenced(text, open) == Some(Trim(body))
  {
    FindFencedAt(text, open, k, j);
    BodyOfSpan(text, open, k, j);
    ExtractOfBody(text, open, body);
  }

  lemma BlockTagFound(text: string, pre: string, open: string, rest: string)
    requires forall k :: 0 <= k < |pre| ==> !OccursAt(pre + open, open, k)
    requires |pre + open + rest| <= |text| && text[..|pre + open + rest|] == pre + open + rest
    ensures FindFrom(text, open, 0) == Some(|pre|)
  {
    PrefixPieces(text, pre + open, rest);
    FirstTagAt(pre, open, text);
  }

  lemma BlockFenceFound(text: string, x: string, body: string)
    requires NoFence(body)
    requires |x + (body + Fence)| <= |text| && text[..|x + (body + Fence)|] == x + (body + Fence)
    ensures FindFrom(text, Fence, |x|) == Some(|x| + |body|)
    ensures text[|x|..|x| + |body|] == body
  {
    PrefixPieces(text, x, body + Fence);
    FenceAfterBody(text, |x|, body);
    BodyBeforeFence(text, |x|, body);
  }

  /** A text that starts with a fenced block, after a prefix in which the tag does not
      occur, yields that block's trimmed body. */
  lemma FencedBlockInPrefix(text: string, pre: string, open: string, body: string)
    requires forall k :: 0 <= k < |pre| ==> !OccursAt(pre + open, open, k)
    requires NoFence(body)
    requires |pre + open + body + Fence| <= |text| && text[..|pre + open + body + Fence|] == pre + open + body + Fence
    ensures ExtractFenced(text, open) == Some(Trim(body))
  {
    assert pre + open + body + Fence == pre + open + (body + Fence);
    BlockTagFound(text, pre, open, body + Fence);
    BlockFenceFound(text, pre + open, body);
    FencedBodyAt(text, open, |pre|, |pre| + |open| + |body|, body);
  }

  /** A fenced block written after text in which the tag does not occur is read back as
      its trimmed body, whatever follows the closing fence. */
  lemma ExtractFencedOfBlock(pre: string, open: string, body: string, post: string)
    requires forall k :: 0 <= k < |pre| ==> !OccursAt(pre + open, open, k)
    requires NoFence(body)
    ensures ExtractFenced(pre + open + body + Fence + post, open) == Some(Trim(body))
  {
    var text := pre + open + body + Fence + post;
    assert text[..|pre + open + body + Fence|] == pre + open + body + Fence;
    FencedBlockInPrefix(text, pre, open, body);
  }

  // ---------------------------------------------------------------- the answer

  /** What a parsable answer yields. */
  datatype Generated = Generated(config: string, component: string, clientFiles: seq<TsxBlocks.File>)

  /** The parsing part of `saveAIGeneratedFiles`: `None` when either the config block or
      the component block is missing (the raw answer is then kept and nothing is
      written); otherwise the trimmed config and component and the client files. The
      matches of the `.tsx` pattern are returned with the result. */
  method ParseResponse(text: string) returns (r: Option<Generated>, ms: seq<TsxBlocks.Match>)
    ensures TsxBlocks.IsScan(text, TsxBlocks.TsxPattern, 0, ms)
    ensures forall i :: 0 <= i < |ms| ==> TsxBlocks.IsMatch(text, TsxBlocks.TsxPattern, ms[i])
    ensures r.Some? <==> ExtractFenced(text, ConfigOpen).Some? && ExtractFenced(text, ComponentOpen).Some?
    ensures r.Some? ==>
      && r.value.config == ExtractFenced(text, ConfigOpen).value
      && r.value.component == ExtractFenced(text, ComponentOpen).value
      && r.value.clientFiles == TsxBlocks.ClientFiles(text, ms, |ms|)
    ensures r.Some? ==> IsTrimmed(r.value.config) && IsTrimmed(r.value.component)
    ensures r.Some? ==> forall f :: f in r.value.clientFiles ==> TsxBlocks.WritableClientFile(f)
  {
    var files;
    ms, files := TsxBlocks.InteractiveFiles(text);
    var config := ExtractFenced(text, ConfigOpen);
    var component := ExtractFenced(text, ComponentOpen);
    if config.None? || component.None? {
      return None, ms;
    }
    r := Some(Generated(config.value, component.value, files));
  }

  /** The answer in the requested output format, a config block and a component block
      separated by a blank line. */
  function Answer(config: string, component: string): string {
    ConfigOpen + config + Fence + "\n\n" + ComponentOpen + component + Fence
  }

  /** A text that holds `tag` at `k` holds each prefix of it there. */
  lemma OccursPrefix(s: string, tag: string, k: nat, n: nat)
    requires n <= |tag|
    ensures OccursAt(s, tag, k) ==> OccursAt(s, tag[..n], k)
  {
    if OccursAt(s, tag, k) {
      assert s[k..k + n] == s[k..k + |tag|][..n];
    }
  }

  lemma ConfigOpenBackticks(i: nat)
    requires i < |ConfigOpen|
    ensures ConfigOpen[i] == '`' <==> i < 3
  {
  }

  /** The answer up to its component tag. */
  function AnswerHead(config: string): string {
    ConfigOpen + config + Fence + "\n\n"
  }

  lemma TagNotInConfigOpen(config: string, k: nat)
    requires k < |ConfigOpen|
    ensures !OccursAt(AnswerHead(config) + ComponentOpen, ComponentOpen, k)
  {
    var s := AnswerHead(config) + ComponentOpen;
    assert s[..|ConfigOpen|] == ConfigOpen;
    var i := if k == 0 then 4 else if k < 3 then 2 else 0;
    OccursChar(s, ComponentOpen, k, i);
    if k > 0 {
      ConfigOpenBackticks(k + i);
    }
    assert s[k + i] == ConfigOpen[k + i];
  }

  lemma TagNotInConfig(config: string, k: nat)
    requires NoFence(config)
    requires |ConfigOpen| <= k < |ConfigOpen| + |config|
    ensures !OccursAt(AnswerHead(config) + ComponentOpen, ComponentOpen, k)
  {
    var s := AnswerHead(config) + ComponentOpen;
    var c := |ConfigOpen|;
    var f := c + |config|;
    assert s[c..f + 3] == config + Fence;
    OccursInSlice(s, Fence, c, f + 3, k);
    OccursPrefix(s, ComponentOpen, k, 3);
    assert ComponentOpen[..3] == Fence;
  }

  lemma TagNotInSeparator(config: string, k: nat)
    requires |ConfigOpen| + |config| <= k < |AnswerHead(config)|
    ensures !OccursAt(AnswerHead(config) + ComponentOpen, ComponentOpen, k)
  {
    var s := AnswerHead(config) + ComponentOpen;
    var f := |ConfigOpen| + |config|;
    assert s[f + 3] == '\n' && s[f + 4] == '\n';
    OccursChar(s, ComponentOpen, k, if k < f + 3 then f + 3 - k else 0);
  }

  /** Round trip: an answer in the output format parses back to its trimmed config and
      component, provided neither holds a fence of its own. */
  lemma ParseAnswer(config: string, component: string)
    requires NoFence(config) && NoFence(component)
    ensures ExtractFenced(Answer(config, component), ConfigOpen) == Some(Trim(config))
    ensures ExtractFenced(Answer(config, component), ComponentOpen) == Some(Trim(component))
  {
    ConfigOfAnswer(config, component);
    ComponentOfAnswer(config, component);
  }

  lemma ConfigOfAnswer(config: string, component: string)
    requires NoFence(config)
    ensures ExtractFenced(Answer(config, component), ConfigOpen) == Some(Trim(config))
  {
    var text := Answer(config, component);
    assert text[..|"" + ConfigOpen + config + Fence|] == "" + ConfigOpen + config + Fence;
    FencedBlockInPrefix(text, "", ConfigOpen, config);
  }

  lemma ComponentOfAnswer(config: string, component: string)
    requires NoFence(config) && NoFence(component)
    ensures ExtractFenced(Answer(config, component), ComponentOpen) == Some(Trim(component))
  {
    var text := Answer(config, component);
    var pre := AnswerHead(config);
    assert text == pre + ComponentOpen + component + Fence;
    forall k | 0 <= k < |pre|
      ensures !OccursAt(pre + ComponentOpen, ComponentOpen, k)
    {
      if k < |ConfigOpen| {
        TagNotInConfigOpen(config, k);
      } else if k < |ConfigOpen| + |config| {
        TagNotInConfig(config, k);
      } else {
        TagNotInSeparator(config, k);
      }
    }
    assert text[..|text|] == text;
    FencedBlockInPrefix(text, pre, ComponentOpen, component);
  }
}
