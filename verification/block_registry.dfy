/** Registering a generated block, and the steps the generator script takes for one
    block name. The repository's files are a map from paths (relative to its root) to
    contents. The component read from the cloned Relume repository, the prompt built
    for it and the answer the user saves are inputs. */
module BlockRegistry {
  import opened Wrappers
  import opened Text
  import opened Markers
  import BlockGenerator
  import TsxBlocks

  // ---------------------------------------------------------------- the inserted lines

  /** The import `registerInRenderBlocks` adds. */
  function ComponentImport(blockName: string, category: string): string {
    "import { " + blockName + "Block } from '@/blocks/" + category + "/" + blockName + "/Component'\n"
  }

  /** The entry `registerInRenderBlocks` adds to the block map. */
  function ComponentEntry(slug: string, blockName: string): string {
    "  " + slug + ": " + blockName + "Block,\n  "
  }

  /** The import `registerInPagesCollection` adds. */
  function ConfigImport(blockName: string, category: string): string {
    "import { " + blockName + " } from '@/blocks/" + category + "/" + blockName + "/config'\n"
  }

  /** The indentation of the pages collection's block list. */
  const ListIndent: string := "                "

  /** The entry `registerInPagesCollection` adds to the block list. */
  function ConfigEntry(blockName: string): string {
    ListIndent + blockName + ",\n" + ListIndent
  }

  lemma NoDollarJoin(a: string, b: string)
    requires NoDollar(a) && NoDollar(b)
    ensures NoDollar(a + b)
  {
    forall i | 0 <= i < |a + b|
      ensures (a + b)[i] != '$'
    {
      if i < |a| {
        assert (a + b)[i] == a[i];
      } else {
        assert (a + b)[i] == b[i - |a|];
      }
    }
  }

  /** Names without `$` make lines without `$`. */
  lemma LinesWithoutDollar(blockName: string, category: string, slug: string)
    requires NoDollar(blockName) && NoDollar(category) && NoDollar(slug)
    ensures NoDollar(ComponentImport(blockName, category)) && NoDollar(ComponentEntry(slug, blockName))
    ensures NoDollar(ConfigImport(blockName, category)) && NoDollar(ConfigEntry(blockName))
  {
    NoDollarJoin("import { ", blockName);
    NoDollarJoin("import { " + blockName, "Block } from '@/blocks/");
    NoDollarJoin("import { " + blockName + "Block } from '@/blocks/", category);
    NoDollarJoin("import { " + blockName + "Block } from '@/blocks/" + category, "/");
    NoDollarJoin("import { " + blockName + "Block } from '@/blocks/" + category + "/", blockName);
    NoDollarJoin("import { " + blockName + "Block } from '@/blocks/" + category + "/" + blockName, "/Component'\n");
    NoDollarJoin("  ", slug);
    NoDollarJoin("  " + slug, ": ");
    NoDollarJoin("  " + slug + ": ", blockName);
    NoDollarJoin("  " + slug + ": " + blockName, "Block,\n  ");
    NoDollarJoin("import { " + blockName, " } from '@/blocks/");
    NoDollarJoin("import { " + blockName + " } from '@/blocks/", category);
    NoDollarJoin("import { " + blockName + " } from '@/blocks/" + category, "/");
    NoDollarJoin("import { " + blockName + " } from '@/blocks/" + category + "/", blockName);
    NoDollarJoin("import { " + blockName + " } from '@/blocks/" + category + "/" + blockName, "/config'\n");
    NoDollarJoin(ListIndent, blockName);
    NoDollarJoin(ListIndent + blockName, ",\n");
    NoDollarJoin(ListIndent + blockName + ",\n", ListIndent);
  }

  // ---------------------------------------------------------------- registration

  /** `registerInRenderBlocks` on the file's content: the import goes before the first
      match of the imports marker, then the entry before the first match of the exports
      marker. Names without `$` are inserted as they are. */
  function RegisterInRenderBlocks(content: string, blockName: string, category: string, slug: string, lead: Lead): (r: string)
    ensures NoDollar(blockName) && NoDollar(category) && NoDollar(slug) ==>
      r == InsertBeforeMarker(
        InsertBeforeMarker(content, ImportsMarker(lead), ComponentImport(blockName, category)),
        ExportsMarker(lead), ComponentEntry(slug, blockName))
  {
    var withImport := ReplaceFirst(content, ImportsMarker(lead), ComponentImport(blockName, category) + "$1");
    var r := ReplaceFirst(withImport, ExportsMarker(lead), ComponentEntry(slug, blockName) + "$1");
    if NoDollar(blockName) && NoDollar(category) && NoDollar(slug) then
      LinesWithoutDollar(blockName, category, slug);
      ReplaceInserts(content, ImportsMarker(lead), ComponentImport(blockName, category), "$1");
      ReplaceInserts(withImport, ExportsMarker(lead), ComponentEntry(slug, blockName), "$1");
      r
    else r
  }

  /** `registerInPagesCollection` on the file's content: the import goes before the
      first match of the config marker, then the entry before the first match of the
      blocks marker. */
  function RegisterInPagesCollection(content: string, blockName: string, category: string, lead: Lead): (r: string)
    ensures NoDollar(blockName) && NoDollar(category) ==>
      r == InsertBeforeMarker(
        InsertBeforeMarker(content, ConfigMarker(lead), ConfigImport(blockName, category)),
        BlocksMarker(lead), ConfigEntry(blockName))
  {
    var withImport := ReplaceFirst(content, ConfigMarker(lead), ConfigImport(blockName, category) + "$&");
    var r := ReplaceFirst(withImport, BlocksMarker(lead), ConfigEntry(blockName) + "$1");
    if NoDollar(blockName) && NoDollar(category) then
      LinesWithoutDollar(blockName, category, "");
      ReplaceInserts(content, ConfigMarker(lead), ConfigImport(blockName, category), "$&");
      ReplaceInserts(withImport, BlocksMarker(lead), ConfigEntry(blockName), "$1");
      r
    else r
  }

  /** A file without the markers is written back unchanged. */
  lemma RegisterWithoutMarkers(content: string, blockName: string, category: string, slug: string, lead: Lead)
    ensures NoMarkerIn(content, ImportsMarker(lead), 0, |content| + 1) && NoMarkerIn(content, ExportsMarker(lead), 0, |content| + 1)
      ==> RegisterInRenderBlocks(content, blockName, category, slug, lead) == content
    ensures NoMarkerIn(content, ConfigMarker(lead), 0, |content| + 1) && NoMarkerIn(content, BlocksMarker(lead), 0, |content| + 1)
      ==> RegisterInPagesCollection(content, blockName, category, lead) == content
  {
    FindMarkerLeftmost(content, ImportsMarker(lead), 0);
    FindMarkerLeftmost(content, ExportsMarker(lead), 0);
    FindMarkerLeftmost(content, ConfigMarker(lead), 0);
    FindMarkerLeftmost(content, BlocksMarker(lead), 0);
  }

  /** The category is letters and the slug keeps the name's other characters, so only
      a `$` in the block name itself can reach the replacement templates. */
  lemma NamesWithoutDollar(blockName: string)
    ensures NoDollar(BlockGenerator.ExtractCategory(blockName))
    ensures NoDollar(blockName) <==> NoDollar(BlockGenerator.Slug(blockName))
  {
    var slug := BlockGenerator.Slug(blockName);
    if NoDollar(blockName) {
      forall i | 0 <= i < |slug|
        ensures slug[i] != '$'
      {
        assert !IsAsciiLetter(blockName[i]) ==> slug[i] == blockName[i];
      }
    }
    if NoDollar(slug) {
      forall i | 0 <= i < |blockName|
        ensures blockName[i] != '$'
      {
        assert !IsAsciiLetter(blockName[i]) ==> slug[i] == blockName[i];
      }
    }
  }

  // ---------------------------------------------------------------- paths

  /** The repository's files by path. */
  type Files = map<string, string>

  const RenderBlocksPath: string := "src/blocks/RenderBlocks.tsx"
  const PagesPath: string := "src/collections/Pages/index.ts"

  /** `src/blocks/<category>/<name>`, where the generated files go. */
  function BlockDir(category: string, blockName: string): string {
    "src/blocks/" + category + "/" + blockName
  }

  function InDir(dir: string, name: string): string {
    dir + "/" + name
  }

  function PromptPath(blockName: string): string {
    "scripts/prompt-" + blockName + ".md"
  }

  function ResponsePath(blockName: string): string {
    "scripts/ai-response-" + blockName + ".txt"
  }

  /** The script's own files live under `scripts/`, the registries and the blocks under
      `src/`; no file of a block directory is a registry. */
  lemma PathsApart(category: string, blockName: string, name: string)
    ensures PromptPath(blockName) != RenderBlocksPath && PromptPath(blockName) != PagesPath
    ensures ResponsePath(blockName) != RenderBlocksPath && ResponsePath(blockName) != PagesPath
    ensures PromptPath(blockName) != ResponsePath(blockName)
    ensures InDir(BlockDir(category, blockName), name) != RenderBlocksPath
    ensures InDir(BlockDir(category, blockName), name) != PagesPath
    ensures InDir(BlockDir(category, blockName), name) != PromptPath(blockName)
  {
    var p := InDir(BlockDir(category, blockName), name);
    assert PromptPath(blockName)[1] == 'c' && ResponsePath(blockName)[1] == 'c';
    assert PromptPath(blockName)[8] == 'p' && ResponsePath(blockName)[8] == 'a';
    assert p[1] == 'r' && p[4] == 'b' && p[11 + |category|] == '/';
    assert RenderBlocksPath[1] == 'r' && PagesPath[1] == 'r' && PagesPath[4] == 'c';
    assert forall i :: 11 <= i < |RenderBlocksPath| ==> RenderBlocksPath[i] != '/';
  }

  /** Two files of one directory are the same path only under the same name. */
  lemma InDirInjective(dir: string, a: string, b: string)
    ensures InDir(dir, a) == InDir(dir, b) <==> a == b
  {
    if InDir(dir, a) == InDir(dir, b) {
      assert a == InDir(dir, a)[|dir| + 1..];
    }
  }

  // ---------------------------------------------------------------- writing the block

  /** The content the last of `files` written to path `p` gave it, if one went there. */
  function LastWrite(dir: string, files: seq<TsxBlocks.File>, p: string): Option<string>
    decreases |files|
  {
    if |files| == 0 then None
    else if InDir(dir, files[|files| - 1].name) == p then Some(files[|files| - 1].content)
    else LastWrite(dir, files[..|files| - 1], p)
  }

  /** The client files written one after the other, each under its name. */
  function WriteClientFiles(fs: Files, dir: string, files: seq<TsxBlocks.File>): (r: Files)
    ensures forall p :: LastWrite(dir, files, p).Some? ==> p in r && r[p] == LastWrite(dir, files, p).value
    ensures forall p :: LastWrite(dir, files, p).None? ==> (p in r <==> p in fs) && (p in fs ==> r[p] == fs[p])
    decreases |files|
  {
    if |files| == 0 then fs
    else
      var f := files[|files| - 1];
      WriteClientFiles(fs, dir, files[..|files| - 1])[InDir(dir, f.name) := f.content]
  }

  /** A path no file name leads to is not written. */
  lemma {:induction false} NotWritten(dir: string, files: seq<TsxBlocks.File>, p: string)
    requires forall i :: 0 <= i < |files| ==> InDir(dir, files[i].name) != p
    ensures LastWrite(dir, files, p).None?
    decreases |files|
  {
    if |files| > 0 {
      NotWritten(dir, files[..|files| - 1], p);
    }
  }

  /** `config.ts`, then `Component.tsx`, then the client files, in the block's directory. */
  function WriteBlock(fs: Files, dir: string, g: BlockGenerator.Generated): Files {
    WriteClientFiles(fs[InDir(dir, "config.ts") := g.config][InDir(dir, "Component.tsx") := g.component], dir, g.clientFiles)
  }

  /** The client files leave `config.ts` and `Component.tsx` alone: their names end in
      `.tsx` and are not `Component.tsx`. */
  lemma ClientFilesApart(dir: string, files: seq<TsxBlocks.File>)
    requires forall f :: f in files ==> TsxBlocks.WritableClientFile(f)
    ensures LastWrite(dir, files, InDir(dir, "config.ts")).None?
    ensures LastWrite(dir, files, InDir(dir, "Component.tsx")).None?
  {
    forall i | 0 <= i < |files|
      ensures InDir(dir, files[i].name) != InDir(dir, "config.ts")
      ensures InDir(dir, files[i].name) != InDir(dir, "Component.tsx")
    {
      assert files[i] in files;
      InDirInjective(dir, files[i].name, "config.ts");
      InDirInjective(dir, files[i].name, "Component.tsx");
      assert !TsxBlocks.EndsWithTsx("config.ts");
    }
    NotWritten(dir, files, InDir(dir, "config.ts"));
    NotWritten(dir, files, InDir(dir, "Component.tsx"));
  }

  /** Writing a block leaves every path outside its directory alone. */
  lemma WriteBlockElsewhere(fs: Files, category: string, blockName: string, g: BlockGenerator.Generated, p: string)
    requires forall name :: InDir(BlockDir(category, blockName), name) != p
    ensures var r := WriteBlock(fs, BlockDir(category, blockName), g);
      (p in r <==> p in fs) && (p in fs ==> r[p] == fs[p])
  {
    NotWritten(BlockDir(category, blockName), g.clientFiles, p);
  }

  /** What writing a block puts in its directory. */
  lemma WriteBlockContents(fs: Files, dir: string, g: BlockGenerator.Generated)
    requires forall f :: f in g.clientFiles ==> TsxBlocks.WritableClientFile(f)
    ensures var r := WriteBlock(fs, dir, g);
      && InDir(dir, "config.ts") in r && r[InDir(dir, "config.ts")] == g.config
      && InDir(dir, "Component.tsx") in r && r[InDir(dir, "Component.tsx")] == g.component
  {
    ClientFilesApart(dir, g.clientFiles);
    InDirInjective(dir, "config.ts", "Component.tsx");
  }

  // ---------------------------------------------------------------- one block

  /** How `processBlockWithAI` ends for one block name: the block written and
      registered, one of the three early returns, or an exception because a registry
      file is missing (which ends the whole run). */
  datatype Outcome = Generated | ComponentNotFound | ResponseNotFound | Unparsable | Crashed

  /** Both the config block and the component block are in the answer. */
  predicate Parsable(text: string) {
    BlockGenerator.ExtractFenced(text, BlockGenerator.ConfigOpen).Some?
    && BlockGenerator.ExtractFenced(text, BlockGenerator.ComponentOpen).Some?
  }

  /** `fs'` holds at `p` what `fs` holds there, or neither holds `p`. */
  predicate SameAt(fs: Files, fs': Files, p: string) {
    (p in fs' <==> p in fs) && (p in fs ==> fs'[p] == fs[p])
  }

  /** Both registries updated, in the order the script updates them. */
  function Register(fs: Files, blockName: string, lead: Lead): Files
    requires RenderBlocksPath in fs && PagesPath in fs
  {
    var category := BlockGenerator.ExtractCategory(blockName);
    fs[RenderBlocksPath := RegisterInRenderBlocks(fs[RenderBlocksPath], blockName, category, BlockGenerator.Slug(blockName), lead)]
      [PagesPath := RegisterInPagesCollection(fs[PagesPath], blockName, category, lead)]
  }

  /** What writing the block does to the files that held the prompt. */
  lemma BlockWritten(fs: Files, blockName: string, prompt: string, g: BlockGenerator.Generated)
    ensures var dir := BlockDir(BlockGenerator.ExtractCategory(blockName), blockName);
      var written := WriteBlock(fs[PromptPath(blockName) := prompt], dir, g);
      && SameAt(fs, written, RenderBlocksPath) && SameAt(fs, written, PagesPath)
      && PromptPath(blockName) in written && written[PromptPath(blockName)] == prompt
  {
    var category := BlockGenerator.ExtractCategory(blockName);
    var withPrompt := fs[PromptPath(blockName) := prompt];
    forall name
      ensures InDir(BlockDir(category, blockName), name) != RenderBlocksPath
      ensures InDir(BlockDir(category, blockName), name) != PagesPath
      ensures InDir(BlockDir(category, blockName), name) != PromptPath(blockName)
    {
      PathsApart(category, blockName, name);
    }
    PathsApart(category, blockName, "");
    WriteBlockElsewhere(withPrompt, category, blockName, g, RenderBlocksPath);
    WriteBlockElsewhere(withPrompt, category, blockName, g, PagesPath);
    WriteBlockElsewhere(withPrompt, category, blockName, g, PromptPath(blockName));
  }

  /** The files after the prompt, the block and both registrations are written. */
  function Generate(fs: Files, blockName: string, prompt: string, g: BlockGenerator.Generated, lead: Lead): Files
    requires RenderBlocksPath in fs && PagesPath in fs
  {
    var written := WriteBlock(fs[PromptPath(blockName) := prompt], BlockDir(BlockGenerator.ExtractCategory(blockName), blockName), g);
    BlockWritten(fs, blockName, prompt, g);
    Register(written, blockName, lead)
  }

  /** A path the processing of a parsable answer writes. */
  ghost predicate Touched(blockName: string, files: seq<TsxBlocks.File>, p: string) {
    var dir := BlockDir(BlockGenerator.ExtractCategory(blockName), blockName);
    || p == PromptPath(blockName) || p == RenderBlocksPath || p == PagesPath
    || p == InDir(dir, "config.ts") || p == InDir(dir, "Component.tsx")
    || LastWrite(dir, files, p).Some?
  }

  /** The block's own files: the prompt, the config, the component and each client
      file, the last one written to a path winning. */
  ghost predicate BlockFiles(fs': Files, blockName: string, prompt: string, config: string, component: string,
                             files: seq<TsxBlocks.File>)
  {
    var dir := BlockDir(BlockGenerator.ExtractCategory(blockName), blockName);
    && PromptPath(blockName) in fs' && fs'[PromptPath(blockName)] == prompt
    && InDir(dir, "config.ts") in fs' && fs'[InDir(dir, "config.ts")] == config
    && InDir(dir, "Component.tsx") in fs' && fs'[InDir(dir, "Component.tsx")] == component
    && (forall p :: LastWrite(dir, files, p).Some? ==> p in fs' && fs'[p] == LastWrite(dir, files, p).value)
  }

  /** Both registries present before and updated after. */
  predicate Registered(fs: Files, fs': Files, blockName: string, lead: Lead) {
    var category := BlockGenerator.ExtractCategory(blockName);
    && RenderBlocksPath in fs && PagesPath in fs && RenderBlocksPath in fs' && PagesPath in fs'
    && fs'[RenderBlocksPath] == RegisterInRenderBlocks(fs[RenderBlocksPath], blockName, category, BlockGenerator.Slug(blockName), lead)
    && fs'[PagesPath] == RegisterInPagesCollection(fs[PagesPath], blockName, category, lead)
  }

  /** Every path processing does not write is as it was. */
  ghost predicate OnlyTouched(fs: Files, fs': Files, blockName: string, files: seq<TsxBlocks.File>) {
    forall p :: !Touched(blockName, files, p) ==> SameAt(fs, fs', p)
  }

  /** `fs[k := v]` agrees with `fs` away from `k`. */
  lemma UpdateElsewhere(fs: Files, k: string, v: string, p: string)
    requires p != k
    ensures SameAt(fs, fs[k := v], p)
  {
  }

  /** Generating leaves a path it does not touch alone. */
  lemma GenerateKeepsAt(fs: Files, blockName: string, prompt: string, g: BlockGenerator.Generated, lead: Lead, p: string)
    requires RenderBlocksPath in fs && PagesPath in fs
    requires !Touched(blockName, g.clientFiles, p)
    ensures SameAt(fs, Generate(fs, blockName, prompt, g, lead), p)
  {
    var dir := BlockDir(BlockGenerator.ExtractCategory(blockName), blockName);
    var withPrompt := fs[PromptPath(blockName) := prompt];
    var named := withPrompt[InDir(dir, "config.ts") := g.config];
    var named' := named[InDir(dir, "Component.tsx") := g.component];
    var written := WriteClientFiles(named', dir, g.clientFiles);
    UpdateElsewhere(fs, PromptPath(blockName), prompt, p);
    UpdateElsewhere(withPrompt, InDir(dir, "config.ts"), g.config, p);
    UpdateElsewhere(named, InDir(dir, "Component.tsx"), g.component, p);
    assert SameAt(named', written, p);
    BlockWritten(fs, blockName, prompt, g);
    assert Generate(fs, blockName, prompt, g, lead) == Register(written, blockName, lead);
  }

  /** Generating touches only the block's paths and the registries. */
  lemma GenerateKeeps(fs: Files, blockName: string, prompt: string, g: BlockGenerator.Generated, lead: Lead)
    requires RenderBlocksPath in fs && PagesPath in fs
    ensures OnlyTouched(fs, Generate(fs, blockName, prompt, g, lead), blockName, g.clientFiles)
  {
    forall p | !Touched(blockName, g.clientFiles, p)
      ensures SameAt(fs, Generate(fs, blockName, prompt, g, lead), p)
    {
      GenerateKeepsAt(fs, blockName, prompt, g, lead, p);
    }
  }

  /** Generating registers the block in both registries. */
  lemma GenerateRegisters(fs: Files, blockName: string, prompt: string, g: BlockGenerator.Generated, lead: Lead)
    requires RenderBlocksPath in fs && PagesPath in fs
    ensures Registered(fs, Generate(fs, blockName, prompt, g, lead), blockName, lead)
  {
    BlockWritten(fs, blockName, prompt, g);
  }

  /** The registries written last leave every other path alone. */
  lemma RegisterKeeps(written: Files, blockName: string, lead: Lead, p: string)
    requires RenderBlocksPath in written && PagesPath in written
    requires p != RenderBlocksPath && p != PagesPath
    ensures SameAt(written, Register(written, blockName, lead), p)
  {
  }

  /** Generating writes the prompt and the block's files. */
  lemma GenerateWrites(fs: Files, blockName: string, prompt: string, g: BlockGenerator.Generated, lead: Lead)
    requires RenderBlocksPath in fs && PagesPath in fs
    requires forall f :: f in g.clientFiles ==> TsxBlocks.WritableClientFile(f)
    ensures BlockFiles(Generate(fs, blockName, prompt, g, lead), blockName, prompt, g.config, g.component, g.clientFiles)
  {
    var category := BlockGenerator.ExtractCategory(blockName);
    var dir := BlockDir(category, blockName);
    var withPrompt := fs[PromptPath(blockName) := prompt];
    var written := WriteBlock(withPrompt, dir, g);
    BlockWritten(fs, blockName, prompt, g);
    WriteBlockContents(withPrompt, dir, g);
    var r := Register(written, blockName, lead);
    assert Generate(fs, blockName, prompt, g, lead) == r;
    PathsApart(category, blockName, "config.ts");
    PathsApart(category, blockName, "Component.tsx");
    RegisterKeeps(written, blockName, lead, PromptPath(blockName));
    RegisterKeeps(written, blockName, lead, InDir(dir, "config.ts"));
    RegisterKeeps(written, blockName, lead, InDir(dir, "Component.tsx"));
    forall p | LastWrite(dir, g.clientFiles, p).Some?
      ensures p in r && r[p] == LastWrite(dir, g.clientFiles, p).value
    {
      WrittenInDir(dir, g.clientFiles, p);
      var name :| p == InDir(dir, name);
      PathsApart(category, blockName, name);
      RegisterKeeps(written, blockName, lead, p);
    }
  }

  /** A path some client file went to is a path of the directory. */
  lemma {:induction false} WrittenInDir(dir: string, files: seq<TsxBlocks.File>, p: string)
    requires LastWrite(dir, files, p).Some?
    ensures exists name :: p == InDir(dir, name)
    decreases |files|
  {
    if InDir(dir, files[|files| - 1].name) != p {
      WrittenInDir(dir, files[..|files| - 1], p);
    }
  }

  /** `processBlockWithAI` for one block name with the registries found by `lead`. The
      Relume component is `component` (`None` when it cannot be read), `prompt` the
      prompt saved for it, and `response` the answer file once the user confirms
      (`None` when it does not exist). The answer's `.tsx` blocks are returned in `ms`
      (empty when the answer is not reached). */
  method ProcessBlock(fs: Files, blockName: string, component: Option<string>, prompt: string,
                      response: Option<string>, lead: Lead)
    returns (outcome: Outcome, fs': Files, ms: seq<TsxBlocks.Match>)
    ensures outcome == ComponentNotFound <==> component.None?
    ensures outcome == ResponseNotFound <==> component.Some? && response.None?
    ensures outcome == Unparsable <==> component.Some? && response.Some? && !Parsable(response.value)
    ensures outcome == Generated <==>
      component.Some? && response.Some? && Parsable(response.value) && RenderBlocksPath in fs && PagesPath in fs
    ensures outcome == ComponentNotFound ==> fs' == fs
    ensures outcome == ResponseNotFound ==> fs' == fs[PromptPath(blockName) := prompt]
    ensures outcome == Unparsable ==> fs' == fs[PromptPath(blockName) := prompt][ResponsePath(blockName) := response.value]
    ensures outcome != Generated && outcome != Crashed ==> SameAt(fs, fs', RenderBlocksPath) && SameAt(fs, fs', PagesPath)
    ensures outcome == Generated || outcome == Crashed ==>
      && TsxBlocks.IsScan(response.value, TsxBlocks.TsxPattern, 0, ms)
      && (forall i :: 0 <= i < |ms| ==> TsxBlocks.IsMatch(response.value, TsxBlocks.TsxPattern, ms[i]))
    ensures outcome == Generated ==>
      BlockFiles(fs', blockName, prompt,
                 BlockGenerator.ExtractFenced(response.value, BlockGenerator.ConfigOpen).value,
                 BlockGenerator.ExtractFenced(response.value, BlockGenerator.ComponentOpen).value,
                 TsxBlocks.ClientFiles(response.value, ms, |ms|))
    ensures outcome == Generated ==> Registered(fs, fs', blockName, lead)
    ensures outcome == Generated ==> OnlyTouched(fs, fs', blockName, TsxBlocks.ClientFiles(response.value, ms, |ms|))
    ensures outcome == Crashed ==> SameAt(fs, fs', PagesPath)
    ensures outcome == Crashed ==> (RenderBlocksPath in fs' <==> RenderBlocksPath in fs)
    ensures outcome == Crashed && RenderBlocksPath in fs ==>
      fs'[RenderBlocksPath] == RegisterInRenderBlocks(fs[RenderBlocksPath], blockName,
        BlockGenerator.ExtractCategory(blockName), BlockGenerator.Slug(blockName), lead)
  {
    ms := [];
    if component.None? {
      return ComponentNotFound, fs, ms;
    }
    var category := BlockGenerator.ExtractCategory(blockName);
    var slug := BlockGenerator.Slug(blockName);
    PathsApart(category, blockName, "");
    var withPrompt := fs[PromptPath(blockName) := prompt];
    if response.None? {
      return ResponseNotFound, withPrompt, ms;
    }
    var parsed;
    parsed, ms := BlockGenerator.ParseResponse(response.value);
    if parsed.None? {
      return Unparsable, withPrompt[ResponsePath(blockName) := response.value], ms;
    }
    var g := parsed.value;
    var written := WriteBlock(withPrompt, BlockDir(category, blockName), g);
    BlockWritten(fs, blockName, prompt, g);
    if RenderBlocksPath !in written {
      return Crashed, written, ms;
    }
    if PagesPath !in written {
      var registered := RegisterInRenderBlocks(written[RenderBlocksPath], blockName, category, slug, lead);
      return Crashed, written[RenderBlocksPath := registered], ms;
    }
    fs' := Generate(fs, blockName, prompt, g, lead);
    outcome := Generated;
    GenerateKeeps(fs, blockName, prompt, g, lead);
    GenerateWrites(fs, blockName, prompt, g, lead);
    GenerateRegisters(fs, blockName, prompt, g, lead);
  }
}
