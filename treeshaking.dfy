/**
 * Bundle measurement and symbol detection over the output of a tree-shaken build.
 *
 * Rollup, terser and gzip are not modelled: a build's output is given as a list of
 * artifacts (code chunks with their per-module rendered lengths, and opaque assets),
 * the minifier as a function that may fail, the compressor as a length function,
 * the compiled folder's size as a number.
 */
module Treeshaking {
  import opened Wrappers
  import opened Strings

  // ---------------------------------------------------------------------------
  // Build output
  // ---------------------------------------------------------------------------

  /** One entry of a chunk's `modules` table: a module id and the bytes it rendered. */
  datatype RenderedModule = RenderedModule(id: string, renderedLength: nat)

  /** An element of Rollup's `output.output`. */
  datatype Artifact = Chunk(code: string, modules: seq<RenderedModule>) | Asset

  /** A node of the module graph handed to the path search. */
  datatype ModuleGraphNode = ModuleGraphNode(
    id: string,
    importedIds: seq<string>,
    importers: seq<string>,
    renderedLength: nat)

  /** What the build-end hook records for one module id. */
  datatype CapturedModule = CapturedModule(id: string, importedIds: seq<string>, importers: seq<string>)

  // ---------------------------------------------------------------------------
  // Synthetic entry
  // ---------------------------------------------------------------------------

  /** `string | string[]`, the argument of the entry points. */
  datatype ComponentSelection = Single(name: string) | Several(names: seq<string>)

  /** A single name is wrapped into a one-element list. */
  function ComponentList(components: ComponentSelection): seq<string>
  {
    match components
    case Single(name) => [name]
    case Several(names) => names
  }

  /** The names, joined by ", ", as they appear in both braces of the entry source. */
  function ImportList(components: ComponentSelection): string
  {
    Join(ComponentList(components), ", ")
  }

  /** The text `createTmpEntry` writes: one import of the names, one re-export of them as `used`. */
  function EntrySource(components: ComponentSelection, es6Entry: string): string
  {
    var importList := ImportList(components);
    "import { " + importList + " } from '" + es6Entry + "';\nexport const used = { " + importList + " };\n"
  }

  /**
   * The entry imports exactly the requested names, in order, and re-exports the same
   * list: the text opens with the import's braces around the list and closes with the
   * re-export's, and splitting that list at ", " gives the names back.
   */
  lemma EntrySourceImportsExactly(components: ComponentSelection, es6Entry: string)
    requires |ComponentList(components)| >= 1
    requires forall k :: 0 <= k < |ComponentList(components)| ==> ',' !in ComponentList(components)[k]
    ensures var src, list := EntrySource(components, es6Entry), ImportList(components);
            && |src| >= 9 + |list| + 4
            && src[..9] == "import { " && src[9..9 + |list|] == list
            && src[|src| - |list| - 4..] == list + " };\n"
            && Split(list, ", ") == ComponentList(components)
  {
    var src, list := EntrySource(components, es6Entry), ImportList(components);
    var mid := " } from '" + es6Entry + "';\nexport const used = { ";
    assert src == "import { " + list + mid + list + " };\n";
    ListBetween(src, "import { ", list, mid, " };\n");
    SplitJoin(ComponentList(components), ", ");
  }

  /** A text that frames the same list twice starts with the first frame and the list, and ends with the list and the last frame. */
  lemma ListBetween(src: string, open: string, list: string, mid: string, close: string)
    requires src == open + list + mid + list + close
    ensures && src[..|open|] == open && src[|open|..|open| + |list|] == list
            && src[|src| - |list| - |close|..] == list + close
  {
  }

  /** A bare name and the one-element list containing it give the same entry. */
  lemma SingleNameIsOneElementList(name: string, es6Entry: string)
    ensures EntrySource(Single(name), es6Entry) == EntrySource(Several([name]), es6Entry)
    ensures ImportList(Single(name)) == name
  {
  }

  // ---------------------------------------------------------------------------
  // Externals and the directory-index resolver
  // ---------------------------------------------------------------------------

  /** An element of Rollup's `external` option: a literal id, or a "starts with" regular expression. */
  datatype External = Exact(name: string) | PrefixPattern(prefix: string)

  const SpecialExternals: seq<string> := ["use-sync-external-store/shim/with-selector"]

  /** `getExternals`, given the dependency names of package.json (None when the field is absent). */
  function GetExternals(dependencies: Option<seq<string>>, peerDependencies: Option<seq<string>>): seq<External>
  {
    ExactAll(dependencies.GetOr([])) + ExactAll(peerDependencies.GetOr([])) + ExactAll(SpecialExternals)
    + [PrefixPattern("victory-vendor"), PrefixPattern("es-toolkit")]
  }

  function ExactAll(names: seq<string>): (r: seq<External>)
    ensures |r| == |names|
    ensures forall k :: 0 <= k < |names| ==> r[k] == Exact(names[k])
  {
    if names == [] then [] else [Exact(names[0])] + ExactAll(names[1..])
  }

  /** Whether one `external` entry claims a module id. */
  predicate ExternalMatches(e: External, id: string) {
    match e
    case Exact(name) => id == name
    case PrefixPattern(prefix) => StartsWith(id, prefix)
  }

  /** Whether Rollup treats `id` as external under the given option list. */
  predicate IsExternal(externals: seq<External>, id: string)
  {
    exists k :: 0 <= k < |externals| && ExternalMatches(externals[k], id)
  }

  /** Declared runtime and peer dependencies, the shim sub-path and the two vendor families are external, and nothing else. */
  lemma ExternalsExactly(dependencies: Option<seq<string>>, peerDependencies: Option<seq<string>>, id: string)
    ensures IsExternal(GetExternals(dependencies, peerDependencies), id)
        <==> || id in dependencies.GetOr([])
             || id in peerDependencies.GetOr([])
             || id == "use-sync-external-store/shim/with-selector"
             || StartsWith(id, "victory-vendor")
             || StartsWith(id, "es-toolkit")
  {
    var deps, peers := dependencies.GetOr([]), peerDependencies.GetOr([]);
    ExternalsComplete(deps, peers, id);
    ExternalsSound(deps, peers, id);
  }

  /** Every listed kind of id is claimed by some entry. */
  lemma ExternalsComplete(deps: seq<string>, peers: seq<string>, id: string)
    ensures (|| id in deps
             || id in peers
             || id == "use-sync-external-store/shim/with-selector"
             || StartsWith(id, "victory-vendor")
             || StartsWith(id, "es-toolkit"))
        ==> IsExternal(ExactAll(deps) + ExactAll(peers) + ExactAll(SpecialExternals)
                       + [PrefixPattern("victory-vendor"), PrefixPattern("es-toolkit")], id)
  {
    var a, b, c := ExactAll(deps), ExactAll(peers), ExactAll(SpecialExternals);
    var ex := a + b + c + [PrefixPattern("victory-vendor"), PrefixPattern("es-toolkit")];
    if id in deps {
      var k :| 0 <= k < |deps| && deps[k] == id;
      assert ex[k] == a[k];
    } else if id in peers {
      var k :| 0 <= k < |peers| && peers[k] == id;
      assert ex[|a| + k] == b[k];
    } else if id == SpecialExternals[0] {
      assert ex[|a| + |b|] == c[0];
    } else if StartsWith(id, "victory-vendor") {
      assert ex[|a| + |b| + |c|] == PrefixPattern("victory-vendor");
    } else if StartsWith(id, "es-toolkit") {
      assert ex[|a| + |b| + |c| + 1] == PrefixPattern("es-toolkit");
    }
  }

  /** An entry claims only ids of the listed kinds. */
  lemma ExternalsSound(deps: seq<string>, peers: seq<string>, id: string)
    ensures IsExternal(ExactAll(deps) + ExactAll(peers) + ExactAll(SpecialExternals)
                       + [PrefixPattern("victory-vendor"), PrefixPattern("es-toolkit")], id)
        ==> (|| id in deps
             || id in peers
             || id == "use-sync-external-store/shim/with-selector"
             || StartsWith(id, "victory-vendor")
             || StartsWith(id, "es-toolkit"))
  {
    var a, b, c := ExactAll(deps), ExactAll(peers), ExactAll(SpecialExternals);
    var ex := a + b + c + [PrefixPattern("victory-vendor"), PrefixPattern("es-toolkit")];
    if IsExternal(ex, id) {
      var k :| 0 <= k < |ex| && ExternalMatches(ex[k], id);
      if k < |a| {
        assert ex[k] == Exact(deps[k]);
      } else if k < |a| + |b| {
        assert ex[k] == Exact(peers[k - |a|]);
      } else if k < |a| + |b| + |c| {
        assert ex[k] == Exact(SpecialExternals[k - |a| - |b|]);
      }
    }
  }

  /** The files and directories the resolver can see. */
  datatype FileTree = FileTree(directories: set<string>, files: set<string>)

  /** `path.join(dir, 'index.js')` for an already resolved directory path. */
  function IndexFileOf(directory: string): string {
    if |directory| > 0 && directory[|directory| - 1] == '/' then directory + "index.js" else directory + "/index.js"
  }

  /**
   * `resolveDirectoryIndexPlugin.resolveId`. `resolveFrom(importer, moduleId)` stands for
   * `path.resolve(path.dirname(importer), moduleId)`.
   */
  function ResolveDirectoryIndex(moduleId: string, importer: Option<string>, fs: FileTree,
                                 resolveFrom: (string, string) -> string): (r: Option<string>)
    ensures importer.None? ==> r.None?
    ensures !StartsWith(moduleId, ".") ==> r.None?
    ensures r.Some? ==> var resolved := resolveFrom(importer.value, moduleId);
                        resolved in fs.directories && r.value == IndexFileOf(resolved)
                        && (r.value in fs.files || r.value in fs.directories)
    ensures importer.Some? && StartsWith(moduleId, ".")
            && resolveFrom(importer.value, moduleId) in fs.directories
            && (IndexFileOf(resolveFrom(importer.value, moduleId)) in fs.files
                || IndexFileOf(resolveFrom(importer.value, moduleId)) in fs.directories)
            ==> r == Some(IndexFileOf(resolveFrom(importer.value, moduleId)))
  {
    if importer.Some? && StartsWith(moduleId, ".") then
      var resolved := resolveFrom(importer.value, moduleId);
      var indexFile := IndexFileOf(resolved);
      if resolved in fs.directories && (indexFile in fs.files || indexFile in fs.directories) then Some(indexFile)
      else None
    else
      None
  }

  // ---------------------------------------------------------------------------
  // Sizes and combined code
  // ---------------------------------------------------------------------------

  /** `getBundleSize`: the `reduce` over the output, adding each chunk's UTF-8 length. */
  function BundleSize(output: seq<Artifact>): nat
  {
    if output == [] then 0
    else
      var last := output[|output| - 1];
      BundleSize(output[..|output| - 1]) + (if last.Chunk? then Utf8Length(last.code) else 0)
  }

  /** The chunks' codes, in output order (the `filter` and `map` of `getCombinedChunkCode`). */
  function ChunkCodes(output: seq<Artifact>): (codes: seq<string>)
    ensures |codes| <= |output|
  {
    if output == [] then []
    else (if output[0].Chunk? then [output[0].code] else []) + ChunkCodes(output[1..])
  }

  /** `getCombinedChunkCode`. */
  function CombinedChunkCode(output: seq<Artifact>): string
  {
    Join(ChunkCodes(output), "\n")
  }

  /** Sum of the UTF-8 lengths of some strings. */
  function TotalUtf8(codes: seq<string>): nat
  {
    if codes == [] then 0 else Utf8Length(codes[0]) + TotalUtf8(codes[1..])
  }

  lemma {:induction false} TotalUtf8Concat(a: seq<string>, b: seq<string>)
    ensures TotalUtf8(a + b) == TotalUtf8(a) + TotalUtf8(b)
    decreases |a|
  {
    if a != [] {
      assert (a + b)[1..] == a[1..] + b;
      TotalUtf8Concat(a[1..], b);
    } else {
      assert a + b == b;
    }
  }

  lemma {:induction false} ChunkCodesConcat(a: seq<Artifact>, b: seq<Artifact>)
    ensures ChunkCodes(a + b) == ChunkCodes(a) + ChunkCodes(b)
    decreases |a|
  {
    if a != [] {
      assert (a + b)[1..] == a[1..] + b;
      ChunkCodesConcat(a[1..], b);
    } else {
      assert a + b == b;
    }
  }

  /** The bundle size is the total UTF-8 length of the chunk codes; assets contribute nothing. */
  lemma {:induction false} BundleSizeIsChunkTotal(output: seq<Artifact>)
    ensures BundleSize(output) == TotalUtf8(ChunkCodes(output))
    decreases |output|
  {
    if output != [] {
      var init, last := output[..|output| - 1], output[|output| - 1];
      assert output == init + [last];
      ChunkCodesConcat(init, [last]);
      TotalUtf8Concat(ChunkCodes(init), ChunkCodes([last]));
      BundleSizeIsChunkTotal(init);
    }
  }

  /** Measuring two outputs together is the sum of measuring them apart. */
  lemma BundleSizeConcat(a: seq<Artifact>, b: seq<Artifact>)
    ensures BundleSize(a + b) == BundleSize(a) + BundleSize(b)
  {
    BundleSizeIsChunkTotal(a + b);
    BundleSizeIsChunkTotal(a);
    BundleSizeIsChunkTotal(b);
    ChunkCodesConcat(a, b);
    TotalUtf8Concat(ChunkCodes(a), ChunkCodes(b));
  }

  /** An asset anywhere in the output changes neither the size nor the combined code. */
  lemma AssetsAreIgnored(a: seq<Artifact>, b: seq<Artifact>)
    ensures BundleSize(a + [Asset] + b) == BundleSize(a + b)
    ensures CombinedChunkCode(a + [Asset] + b) == CombinedChunkCode(a + b)
  {
    BundleSizeConcat(a + [Asset], b);
    BundleSizeConcat(a, [Asset]);
    BundleSizeConcat(a, b);
    ChunkCodesConcat(a + [Asset], b);
    ChunkCodesConcat(a, [Asset]);
    ChunkCodesConcat(a, b);
    assert ChunkCodes([Asset]) == [];
    assert ChunkCodes(a + [Asset] + b) == ChunkCodes(a + b);
  }

  /** Joining adds exactly one byte per "\n" separator. */
  lemma {:induction false} JoinedLength(codes: seq<string>)
    ensures Utf8Length(Join(codes, "\n")) == TotalUtf8(codes) + (if |codes| == 0 then 0 else |codes| - 1)
    decreases |codes|
  {
    if |codes| == 1 {
      assert TotalUtf8(codes) == Utf8Length(codes[0]) + TotalUtf8(codes[1..]);
    } else if |codes| > 1 {
      var rest := Join(codes[1..], "\n");
      Utf8LengthConcat(codes[0] + "\n", rest);
      Utf8LengthConcat(codes[0], "\n");
      assert Utf8Length("\n") == 1 by {
        assert "\n"[..0] == "";
      }
      JoinedLength(codes[1..]);
    }
  }

  /**
   * The combined code measures the bundle size plus one byte per join: detection sees
   * every chunk byte and nothing from the assets.
   */
  lemma CombinedCodeLength(output: seq<Artifact>)
    ensures var n := |ChunkCodes(output)|;
            Utf8Length(CombinedChunkCode(output)) == BundleSize(output) + (if n == 0 then 0 else n - 1)
  {
    BundleSizeIsChunkTotal(output);
    JoinedLength(ChunkCodes(output));
  }

  /** Every chunk's code occurs, unchanged, inside the combined code. */
  lemma {:induction false} ChunkCodeOccursInCombined(output: seq<Artifact>, i: nat)
    requires i < |output| && output[i].Chunk?
    ensures exists k :: OccursAt(CombinedChunkCode(output), k, output[i].code)
    decreases |output|
  {
    var codes := ChunkCodes(output);
    var code := output[i].code;
    if i == 0 {
      assert codes == [code] + ChunkCodes(output[1..]);
      JoinStartsWithHead(codes, "\n");
      assert OccursAt(CombinedChunkCode(output), 0, code);
    } else {
      ChunkCodeOccursInCombined(output[1..], i - 1);
      var rest := CombinedChunkCode(output[1..]);
      var k :| OccursAt(rest, k, code);
      if output[0].Chunk? {
        var head := output[0].code;
        ChunkCodeIndex(output[1..], i - 1);
        assert codes == [head] + ChunkCodes(output[1..]);
        assert CombinedChunkCode(output) == (head + "\n") + rest;
        OccursAfterPrefix(head + "\n", rest, k, code);
        assert OccursAt(CombinedChunkCode(output), |head + "\n"| + k, code);
      } else {
        assert codes == ChunkCodes(output[1..]);
        assert OccursAt(CombinedChunkCode(output), k, code);
      }
    }
  }

  lemma {:induction false} ChunkCodeIndex(output: seq<Artifact>, i: nat)
    requires i < |output| && output[i].Chunk?
    ensures output[i].code in ChunkCodes(output)
    decreases |output|
  {
    if i > 0 {
      ChunkCodeIndex(output[1..], i - 1);
    }
  }

  // ---------------------------------------------------------------------------
  // Symbol detection
  // ---------------------------------------------------------------------------

  /** JavaScript's `\s`: the ECMAScript white space and line terminator characters. */
  predicate IsJsWhitespace(c: char)
  {
    var k := c as int;
    || k == 0x09 || k == 0x0A || k == 0x0B || k == 0x0C || k == 0x0D || k == 0x20
    || k == 0xA0 || k == 0x1680 || (0x2000 <= k <= 0x200A) || k == 0x2028 || k == 0x2029
    || k == 0x202F || k == 0x205F || k == 0x3000 || k == 0xFEFF
  }

  /** `t` starts with a non-empty run of whitespace followed by "{" (the regex `\s+{` at position 0). */
  ghost predicate OpensBlockAfterWhitespace(t: string)
  {
    exists k :: 0 < k < |t| && t[k] == '{' && forall m :: 0 <= m < k ==> IsJsWhitespace(t[m])
  }

  /** `t` starts with "class <name>", whitespace and "{". */
  ghost predicate ClassDeclarationStarts(t: string, name: string)
  {
    StartsWith(t, "class " + name) && OpensBlockAfterWhitespace(t[|"class " + name|..])
  }

  /** The four declaration shapes the detector looks for, stated over positions in the code. */
  ghost predicate DeclaredIn(code: string, name: string)
  {
    || (exists i :: OccursAt(code, i, "var " + name + " "))
    || (exists i :: OccursAt(code, i, "const " + name + " "))
    || (exists i :: OccursAt(code, i, "function " + name + "("))
    || (exists i :: 0 <= i <= |code| && ClassDeclarationStarts(code[i..], name))
  }

  /** Scanner for `\s+{` at the start of `t`. */
  predicate WhitespaceThenBrace(t: string)
    decreases |t|
  {
    |t| >= 2 && IsJsWhitespace(t[0]) && (t[1] == '{' || WhitespaceThenBrace(t[1..]))
  }

  lemma {:induction false} WhitespaceThenBraceIff(t: string)
    ensures WhitespaceThenBrace(t) <==> OpensBlockAfterWhitespace(t)
    decreases |t|
  {
    if |t| >= 2 && IsJsWhitespace(t[0]) {
      if t[1] == '{' {
        assert forall m :: 0 <= m < 1 ==> IsJsWhitespace(t[m]);
      } else {
        WhitespaceThenBraceIff(t[1..]);
        if OpensBlockAfterWhitespace(t[1..]) {
          var k :| 0 < k < |t[1..]| && t[1..][k] == '{' && forall m :: 0 <= m < k ==> IsJsWhitespace(t[1..][m]);
          assert t[k + 1] == '{';
          assert forall m :: 0 <= m < k + 1 ==> IsJsWhitespace(t[m]) by {
            forall m | 0 <= m < k + 1 ensures IsJsWhitespace(t[m]) {
              if m > 0 { assert t[m] == t[1..][m - 1]; }
            }
          }
        }
        if OpensBlockAfterWhitespace(t) {
          var k :| 0 < k < |t| && t[k] == '{' && forall m :: 0 <= m < k ==> IsJsWhitespace(t[m]);
          assert t[1..][k - 1] == '{';
          assert forall m :: 0 <= m < k - 1 ==> IsJsWhitespace(t[1..][m]) by {
            forall m | 0 <= m < k - 1 ensures IsJsWhitespace(t[1..][m]) {
              assert t[1..][m] == t[m + 1];
            }
          }
        }
      }
    }
  }

  /** Scanner for the class pattern anywhere in the code. */
  predicate HasClassDeclaration(code: string, name: string)
    decreases |code|
  {
    var head := "class " + name;
    || (StartsWith(code, head) && WhitespaceThenBrace(code[|head|..]))
    || (|code| > 0 && HasClassDeclaration(code[1..], name))
  }

  lemma {:induction false} HasClassDeclarationIff(code: string, name: string)
    ensures HasClassDeclaration(code, name) <==> exists i :: 0 <= i <= |code| && ClassDeclarationStarts(code[i..], name)
    decreases |code|
  {
    var head := "class " + name;
    if StartsWith(code, head) {
      WhitespaceThenBraceIff(code[|head|..]);
    }
    assert code[0..] == code;
    if |code| > 0 {
      HasClassDeclarationIff(code[1..], name);
      if exists i :: 0 <= i <= |code[1..]| && ClassDeclarationStarts(code[1..][i..], name) {
        var i :| 0 <= i <= |code[1..]| && ClassDeclarationStarts(code[1..][i..], name);
        assert code[1..][i..] == code[i + 1..];
      }
      if exists i :: 0 <= i <= |code| && ClassDeclarationStarts(code[i..], name) {
        var i :| 0 <= i <= |code| && ClassDeclarationStarts(code[i..], name);
        if i > 0 {
          assert code[1..][i - 1..] == code[i..];
        }
      }
    }
  }

  /** The test applied to one candidate name: any of the four patterns matches. */
  predicate DeclaresName(code: string, name: string)
  {
    || Contains(code, "var " + name + " ")
    || Contains(code, "const " + name + " ")
    || Contains(code, "function " + name + "(")
    || HasClassDeclaration(code, name)
  }

  lemma DeclaresNameIff(code: string, name: string)
    ensures DeclaresName(code, name) <==> DeclaredIn(code, name)
  {
    ContainsIff(code, "var " + name + " ");
    ContainsIff(code, "const " + name + " ");
    ContainsIff(code, "function " + name + "(");
    HasClassDeclarationIff(code, name);
  }

  /**
   * `matchComponentNamesInBundle`: the candidates that have a declaration in the code.
   * A candidate is reported exactly when one of the four shapes is present for it.
   */
  function MatchComponentNamesInBundle(code: string, componentNames: seq<string>): (found: set<string>)
    ensures forall n :: n in found <==> n in componentNames && DeclaredIn(code, n)
    decreases |componentNames|
  {
    if componentNames == [] then {}
    else
      var name := componentNames[0];
      DeclaresNameIff(code, name);
      var rest := MatchComponentNamesInBundle(code, componentNames[1..]);
      assert forall n :: n in componentNames <==> n == name || n in componentNames[1..];
      if DeclaresName(code, name) then {name} + rest else rest
  }

  /** `findComponentsInBundle`: detection over the chunks' combined code. */
  function FindComponentsInBundle(output: seq<Artifact>, componentNames: seq<string>): set<string>
  {
    MatchComponentNamesInBundle(CombinedChunkCode(output), componentNames)
  }

  /** Characters that can continue a JavaScript identifier. */
  predicate IsIdentifierChar(c: char) {
    ('a' <= c <= 'z') || ('A' <= c <= 'Z') || ('0' <= c <= '9') || c == '_' || c == '$'
  }

  /** Every occurrence of `name` in the code runs on into a longer identifier. */
  ghost predicate OnlyInsideLongerNames(code: string, name: string)
  {
    forall i :: OccursAt(code, i, name) ==> i + |name| < |code| && IsIdentifierChar(code[i + |name|])
  }

  /** An occurrence of `p` inside an occurrence of `q` is an occurrence in the enclosing text. */
  lemma OccursWithin(s: string, i: int, q: string, j: int, p: string)
    requires OccursAt(s, i, q) && OccursAt(q, j, p)
    ensures OccursAt(s, i + j, p)
  {
    assert s[i..i + |q|] == q;
    forall m | 0 <= m < |p| ensures s[i + j + m] == p[m] {
      assert s[i + j + m] == s[i..i + |q|][j + m];
      assert q[j + m] == q[j..j + |p|][m];
    }
    assert s[i + j..i + j + |p|] == p;
  }

  /** A text that starts with `pre + name + [c]` shows `name` followed by `c`. */
  lemma FollowedBy(code: string, i: int, pre: string, name: string, c: char)
    requires OccursAt(code, i, pre + name + [c])
    ensures OccursAt(code, i + |pre|, name) && code[i + |pre| + |name|] == c
  {
    var p := pre + name + [c];
    assert OccursAt(p, |pre|, name) by {
      assert p[|pre|..|pre| + |name|] == name;
    }
    OccursWithin(code, i, p, |pre|, name);
    assert code[i + |pre| + |name|] == code[i..i + |p|][|pre| + |name|];
  }

  /** Any text `u` that extends `t` opens a block after whitespace when `t` does. */
  lemma OpensBlockExtends(t: string, u: string)
    requires t <= u && OpensBlockAfterWhitespace(t)
    ensures OpensBlockAfterWhitespace(u)
  {
    var k :| 0 < k < |t| && t[k] == '{' && forall m :: 0 <= m < k ==> IsJsWhitespace(t[m]);
    assert u[k] == '{';
    assert forall m :: 0 <= m < k ==> u[m] == t[m];
  }

  /** Any text `u` that extends `t` holds a class declaration at its start when `t` does. */
  lemma ClassDeclarationExtends(t: string, u: string, name: string)
    requires t <= u && ClassDeclarationStarts(t, name)
    ensures ClassDeclarationStarts(u, name)
  {
    var n := |"class " + name|;
    assert t[n..] <= u[n..];
    OpensBlockExtends(t[n..], u[n..]);
  }

  /** A declaration stays a declaration inside any text that contains its code. */
  lemma DeclaredInEnclosing(all: string, k: int, code: string, name: string)
    requires OccursAt(all, k, code) && DeclaredIn(code, name)
    ensures DeclaredIn(all, name)
  {
    if exists j :: OccursAt(code, j, "var " + name + " ") {
      var j :| OccursAt(code, j, "var " + name + " ");
      OccursWithin(all, k, code, j, "var " + name + " ");
    } else if exists j :: OccursAt(code, j, "const " + name + " ") {
      var j :| OccursAt(code, j, "const " + name + " ");
      OccursWithin(all, k, code, j, "const " + name + " ");
    } else if exists j :: OccursAt(code, j, "function " + name + "(") {
      var j :| OccursAt(code, j, "function " + name + "(");
      OccursWithin(all, k, code, j, "function " + name + "(");
    } else {
      var j :| 0 <= j <= |code| && ClassDeclarationStarts(code[j..], name);
      assert code[j..] <= all[k + j..] by {
        assert all[k..k + |code|] == code;
        assert forall m :: 0 <= m < |code| - j ==> all[k + j..][m] == code[j..][m];
      }
      ClassDeclarationExtends(code[j..], all[k + j..], name);
    }
  }

  /** A shape that follows the name with a non-identifier character ends the name there. */
  lemma PatternEndsName(code: string, pre: string, name: string, c: char)
    requires exists i :: OccursAt(code, i, pre + name + [c])
    requires !IsIdentifierChar(c)
    ensures !OnlyInsideLongerNames(code, name)
  {
    var i :| OccursAt(code, i, pre + name + [c]);
    FollowedBy(code, i, pre, name, c);
  }

  /** The class shape puts whitespace right after the name. */
  lemma ClassDeclarationEndsName(code: string, i: int, name: string)
    requires 0 <= i <= |code| && ClassDeclarationStarts(code[i..], name)
    ensures !OnlyInsideLongerNames(code, name)
  {
    var t, n := code[i..], |"class " + name|;
    var k :| 0 < k < |t[n..]| && t[n..][k] == '{' && forall m :: 0 <= m < k ==> IsJsWhitespace(t[n..][m]);
    var c := t[n..][0];
    assert IsJsWhitespace(c);
    assert OccursAt(code, i, "class " + name + [c]) by {
      assert code[i..i + n + 1] == t[..n + 1] == "class " + name + [c];
    }
    PatternEndsName(code, "class ", name, c);
  }

  /** Each of the four shapes puts a space, "(" or whitespace right after the name. */
  lemma DeclarationEndsName(code: string, name: string)
    requires DeclaredIn(code, name)
    ensures !OnlyInsideLongerNames(code, name)
  {
    if exists i :: OccursAt(code, i, "var " + name + " ") {
      PatternEndsName(code, "var ", name, ' ');
    } else if exists i :: OccursAt(code, i, "const " + name + " ") {
      PatternEndsName(code, "const ", name, ' ');
    } else if exists i :: OccursAt(code, i, "function " + name + "(") {
      PatternEndsName(code, "function ", name, '(');
    } else {
      var i :| 0 <= i <= |code| && ClassDeclarationStarts(code[i..], name);
      ClassDeclarationEndsName(code, i, name);
    }
  }

  /**
   * Prefix safety: a tracked name that only occurs as the start of a longer identifier
   * (Bar inside BarChart) is not reported, whatever else is declared.
   */
  lemma PrefixOfLongerNameNotReported(code: string, name: string, componentNames: seq<string>)
    ensures OnlyInsideLongerNames(code, name) ==> name !in MatchComponentNamesInBundle(code, componentNames)
  {
    if name in MatchComponentNamesInBundle(code, componentNames) {
      DeclarationEndsName(code, name);
    }
  }

  /** A declaration in any single chunk is reported by the combined-code detection. */
  lemma DeclarationInChunkIsFound(output: seq<Artifact>, i: nat, name: string, componentNames: seq<string>)
    requires i < |output| && output[i].Chunk?
    requires name in componentNames && DeclaredIn(output[i].code, name)
    ensures name in FindComponentsInBundle(output, componentNames)
  {
    ChunkCodeOccursInCombined(output, i);
    var k :| OccursAt(CombinedChunkCode(output), k, output[i].code);
    DeclaredInEnclosing(CombinedChunkCode(output), k, output[i].code, name);
  }

  // ---------------------------------------------------------------------------
  // Size formatting and reduction percentage
  // ---------------------------------------------------------------------------

  datatype SizeUnit = KB | MB | GB | TB

  /** How `formatBundleSize` renders a size: plain bytes, or a scaled value and its unit. */
  datatype SizeDisplay = InBytes(bytes: int) | Scaled(value: real, unit: SizeUnit)

  /** 1024 to the power `k`. */
  function Pow1024(k: nat): (p: real)
    ensures p >= 1.0
  {
    if k == 0 then 1.0 else 1024.0 * Pow1024(k - 1)
  }

  /** `units[index]`. */
  function UnitAt(index: nat): SizeUnit
    requires index < 4
  {
    [KB, MB, GB, TB][index]
  }

  /** The number of bytes one unit stands for. */
  function UnitBytes(u: SizeUnit): real
  {
    match u
    case KB => 1024.0
    case MB => 1048576.0
    case GB => 1073741824.0
    case TB => 1099511627776.0
  }

  /**
   * The display `formatBundleSize` selects, in closed form: below 1024 the plain byte count,
   * otherwise the largest unit (at most TB) whose size the value reaches.
   */
  function SizeDisplayOf(sizeInBytes: int): SizeDisplay
  {
    if sizeInBytes < 1024 then InBytes(sizeInBytes)
    else
      var unit :=
        if sizeInBytes < 1048576 then KB
        else if sizeInBytes < 1073741824 then MB
        else if sizeInBytes < 1099511627776 then GB
        else TB;
      Scaled(sizeInBytes as real / UnitBytes(unit), unit)
  }

  /**
   * `formatBundleSize` without the digit rendering of `toFixed(2)`: the loop divides by
   * 1024 until the value drops below 1024 or the unit index reaches TB.
   */
  method FormatBundleSize(sizeInBytes: int) returns (display: SizeDisplay)
    ensures display == SizeDisplayOf(sizeInBytes)
    ensures display.InBytes? <==> sizeInBytes < 1024
    ensures display.Scaled? ==>
              && 1.0 <= display.value
              && (display.value < 1024.0 || display.unit == TB)
              && display.value * UnitBytes(display.unit) == sizeInBytes as real
  {
    if sizeInBytes < 1024 {
      return InBytes(sizeInBytes);
    }
    var value: real := sizeInBytes as real;
    var unitIndex: int := -1;
    while value >= 1024.0 && unitIndex < 3
      invariant -1 <= unitIndex <= 3
      invariant value * Pow1024(unitIndex + 1) == sizeInBytes as real
      invariant unitIndex == -1 ==> value == sizeInBytes as real
      invariant unitIndex >= 0 ==> value >= 1.0
      decreases 3 - unitIndex
    {
      var scale := Pow1024(unitIndex + 1);
      assert Pow1024(unitIndex + 2) == 1024.0 * scale;
      assert (value / 1024.0) * (1024.0 * scale) == value * scale;
      value := value / 1024.0;
      unitIndex := unitIndex + 1;
    }
    assert unitIndex >= 0;
    display := Scaled(value, UnitAt(unitIndex));
    assert UnitBytes(UnitAt(unitIndex)) == Pow1024(unitIndex + 1) by {
      assert Pow1024(1) == 1024.0;
      assert Pow1024(2) == 1048576.0;
      assert Pow1024(3) == 1073741824.0;
      assert Pow1024(4) == 1099511627776.0;
    }
  }

  /** The documented examples: 512 bytes, 1 KB and 1 MB. */
  lemma FormatExamples()
    ensures SizeDisplayOf(512) == InBytes(512)
    ensures SizeDisplayOf(1024) == Scaled(1.0, KB)
    ensures SizeDisplayOf(1024 * 1024) == Scaled(1.0, MB)
  {
  }

  /**
   * `getReductionPercent` before its two-decimal rounding: the share of the baseline
   * that was removed, in percent, and 0 for a baseline that is not positive.
   */
  function ReductionPercent(baselineSizeInBytes: int, reducedSizeInBytes: int): (percent: real)
    ensures baselineSizeInBytes <= 0 ==> percent == 0.0
    ensures baselineSizeInBytes > 0 ==>
              percent * baselineSizeInBytes as real == (baselineSizeInBytes - reducedSizeInBytes) as real * 100.0
  {
    if baselineSizeInBytes <= 0 then 0.0
    else ((baselineSizeInBytes - reducedSizeInBytes) as real / baselineSizeInBytes as real) * 100.0
  }

  /** For a positive baseline the percentage strictly falls as the reduced size grows. */
  lemma ReductionPercentAntitone(baseline: int, smaller: int, larger: int)
    requires baseline > 0 && smaller < larger
    ensures ReductionPercent(baseline, smaller) > ReductionPercent(baseline, larger)
  {
    var b := baseline as real;
    var p, q := ReductionPercent(baseline, smaller), ReductionPercent(baseline, larger);
    assert (p - q) * b == (larger - smaller) as real * 100.0;
  }

  /** Zero exactly when nothing was removed, positive exactly when something was, at most 100 for a non-negative size. */
  lemma ReductionPercentSign(baseline: int, reduced: int)
    requires baseline > 0
    ensures ReductionPercent(baseline, reduced) == 0.0 <==> reduced == baseline
    ensures ReductionPercent(baseline, reduced) > 0.0 <==> reduced < baseline
    ensures reduced >= 0 ==> ReductionPercent(baseline, reduced) <= 100.0
  {
    var b := baseline as real;
    var p := ReductionPercent(baseline, reduced);
    assert p * b == (baseline - reduced) as real * 100.0;
    if reduced >= 0 {
      assert (100.0 - p) * b == reduced as real * 100.0;
    }
  }

  lemma ReductionExamples()
    ensures ReductionPercent(1000, 650) == 35.0
    ensures ReductionPercent(0, 100) == 0.0
  {
  }

  // ---------------------------------------------------------------------------
  // The four-stage size report
  // ---------------------------------------------------------------------------

  datatype StageName = Es6Folder | TreeShaken | Minified | MinifiedGzip

  datatype BundleSizeStage = BundleSizeStage(
    stage: StageName,
    bytes: nat,
    humanReadableSize: SizeDisplay,
    reductionFromBaselinePercent: real)

  datatype BundleSizeReport = BundleSizeReport(components: seq<string>, stages: seq<BundleSizeStage>)

  /** The error `getBundleSizeReport` throws when terser returns no code. */
  datatype ReportError = MinifyFailed

  const StageOrder: seq<StageName> := [Es6Folder, TreeShaken, Minified, MinifiedGzip]

  function MeasuredStage(stage: StageName, baseline: nat, bytes: nat): BundleSizeStage {
    BundleSizeStage(stage, bytes, SizeDisplayOf(bytes), ReductionPercent(baseline, bytes))
  }

  /**
   * `getBundleSizeReport` after the build: `es6FolderBytes` is the size of the compiled
   * folder, `output` the build's artifacts, `minify` terser (None when it yields no code)
   * and `gzipLength` the compressed length of a text.
   */
  function GetBundleSizeReport(components: ComponentSelection, es6FolderBytes: nat, output: seq<Artifact>,
                               minify: string -> Option<string>, gzipLength: string -> nat)
    : (r: Result<BundleSizeReport, ReportError>)
    ensures r.Failure? <==> minify(CombinedChunkCode(output)).None?
    ensures r.Success? ==>
              && r.value.components == ComponentList(components)
              && |r.value.stages| == 4
              && (forall i :: 0 <= i < 4 ==> r.value.stages[i].stage == StageOrder[i])
              && r.value.stages[0].reductionFromBaselinePercent == 0.0
              && (forall i :: 0 <= i < 4 ==>
                    r.value.stages[i].reductionFromBaselinePercent
                    == ReductionPercent(es6FolderBytes, r.value.stages[i].bytes))
  {
    var minified := minify(CombinedChunkCode(output));
    if minified.None? then Failure(MinifyFailed)
    else
      var code := minified.value;
      var first := BundleSizeStage(Es6Folder, es6FolderBytes, SizeDisplayOf(es6FolderBytes), 0.0);
      Success(BundleSizeReport(
        ComponentList(components),
        [ first,
          MeasuredStage(TreeShaken, es6FolderBytes, BundleSize(output)),
          MeasuredStage(Minified, es6FolderBytes, Utf8Length(code)),
          MeasuredStage(MinifiedGzip, es6FolderBytes, gzipLength(code)) ]))
  }

  /** The bytes of each stage come from the folder size, the chunks, the minified code and its compressed form. */
  lemma ReportStageSizes(components: ComponentSelection, es6FolderBytes: nat, output: seq<Artifact>,
                         minify: string -> Option<string>, gzipLength: string -> nat)
    requires minify(CombinedChunkCode(output)).Some?
    ensures var r := GetBundleSizeReport(components, es6FolderBytes, output, minify, gzipLength);
            var code := minify(CombinedChunkCode(output)).value;
            && r.Success?
            && r.value.stages[0].bytes == es6FolderBytes
            && r.value.stages[1].bytes == TotalUtf8(ChunkCodes(output))
            && r.value.stages[2].bytes == Utf8Length(code)
            && r.value.stages[3].bytes == gzipLength(code)
            && forall i :: 0 <= i < 4 ==> r.value.stages[i].humanReadableSize == SizeDisplayOf(r.value.stages[i].bytes)
  {
    BundleSizeIsChunkTotal(output);
  }

  /** When compression does not grow the minified code, its reduction is at least the minified stage's. */
  lemma GzipReductionAtLeastMinified(components: ComponentSelection, es6FolderBytes: nat, output: seq<Artifact>,
                                     minify: string -> Option<string>, gzipLength: string -> nat)
    requires minify(CombinedChunkCode(output)).Some?
    requires gzipLength(minify(CombinedChunkCode(output)).value) <= Utf8Length(minify(CombinedChunkCode(output)).value)
    ensures var r := GetBundleSizeReport(components, es6FolderBytes, output, minify, gzipLength);
            r.Success? && r.value.stages[3].reductionFromBaselinePercent >= r.value.stages[2].reductionFromBaselinePercent
  {
    var code := minify(CombinedChunkCode(output)).value;
    if es6FolderBytes > 0 && gzipLength(code) < Utf8Length(code) {
      ReductionPercentAntitone(es6FolderBytes, gzipLength(code), Utf8Length(code));
    }
  }

  /** Every stage that shrank below a positive baseline reports a positive reduction. */
  lemma SmallerStagesReportPositiveReduction(components: ComponentSelection, es6FolderBytes: nat, output: seq<Artifact>,
                                             minify: string -> Option<string>, gzipLength: string -> nat, i: nat)
    requires minify(CombinedChunkCode(output)).Some?
    requires 1 <= i < 4
    ensures var r := GetBundleSizeReport(components, es6FolderBytes, output, minify, gzipLength);
            r.Success? && (r.value.stages[i].bytes < es6FolderBytes ==> r.value.stages[i].reductionFromBaselinePercent > 0.0)
  {
    var r := GetBundleSizeReport(components, es6FolderBytes, output, minify, gzipLength);
    if r.value.stages[i].bytes < es6FolderBytes {
      ReductionPercentSign(es6FolderBytes, r.value.stages[i].bytes);
    }
  }

  // ---------------------------------------------------------------------------
  // Module graph: edges from the build-end hook merged with rendered lengths
  // ---------------------------------------------------------------------------

  function ChunkModules(a: Artifact): seq<RenderedModule> {
    if a.Chunk? then a.modules else []
  }

  /** Every (id, rendered length) entry of every chunk, in the order the loops visit them. */
  function ModuleEntries(output: seq<Artifact>): seq<RenderedModule>
  {
    if output == [] then [] else ModuleEntries(output[..|output| - 1]) + ChunkModules(output[|output| - 1])
  }

  /** The `renderedLengths` map after `set`-ing every entry in order. */
  function LengthTable(entries: seq<RenderedModule>): map<string, nat>
  {
    if entries == [] then map[]
    else
      var last := entries[|entries| - 1];
      LengthTable(entries[..|entries| - 1])[last.id := last.renderedLength]
  }

  /** The table holds exactly the ids some entry has. */
  lemma {:induction false} LengthTableDomain(entries: seq<RenderedModule>, id: string)
    ensures id in LengthTable(entries) <==> exists k :: 0 <= k < |entries| && entries[k].id == id
    decreases |entries|
  {
    if entries != [] {
      var n := |entries| - 1;
      var init := entries[..n];
      LengthTableDomain(init, id);
      if exists k :: 0 <= k < |init| && init[k].id == id {
        var k :| 0 <= k < |init| && init[k].id == id;
        assert entries[k] == init[k];
      }
      if exists k :: 0 <= k < |entries| && entries[k].id == id {
        var k :| 0 <= k < |entries| && entries[k].id == id;
        if k < n {
          assert init[k] == entries[k];
        }
      }
    }
  }

  /** Later entries overwrite earlier ones: an id's length is that of its last entry. */
  lemma {:induction false} LengthTableLastWins(entries: seq<RenderedModule>, k: nat)
    requires k < |entries|
    requires forall k' :: k < k' < |entries| ==> entries[k'].id != entries[k].id
    ensures entries[k].id in LengthTable(entries)
    ensures LengthTable(entries)[entries[k].id] == entries[k].renderedLength
    decreases |entries|
  {
    var n := |entries| - 1;
    if k < n {
      var init := entries[..n];
      assert init[k] == entries[k];
      LengthTableLastWins(init, k);
    }
  }

  /** The rendered length recorded for a module id, 0 when no chunk lists it. */
  function RenderedLengthOf(output: seq<Artifact>, id: string): nat
  {
    var table := LengthTable(ModuleEntries(output));
    if id in table then table[id] else 0
  }

  /** A module no chunk lists gets rendered length 0. */
  lemma RenderedLengthAbsent(output: seq<Artifact>, id: string)
    requires forall k :: 0 <= k < |ModuleEntries(output)| ==> ModuleEntries(output)[k].id != id
    ensures RenderedLengthOf(output, id) == 0
  {
    LengthTableDomain(ModuleEntries(output), id);
  }

  /** A module listed by some chunk gets the length of its last entry. */
  lemma RenderedLengthLast(output: seq<Artifact>, k: nat)
    requires k < |ModuleEntries(output)|
    requires forall k' :: k < k' < |ModuleEntries(output)| ==> ModuleEntries(output)[k'].id != ModuleEntries(output)[k].id
    ensures RenderedLengthOf(output, ModuleEntries(output)[k].id) == ModuleEntries(output)[k].renderedLength
  {
    LengthTableLastWins(ModuleEntries(output), k);
  }

  lemma LengthTableSnoc(entries: seq<RenderedModule>, e: RenderedModule)
    ensures LengthTable(entries + [e]) == LengthTable(entries)[e.id := e.renderedLength]
  {
    assert (entries + [e])[..|entries|] == entries;
  }

  lemma ModuleEntriesSnoc(output: seq<Artifact>, i: nat)
    requires i < |output|
    ensures ModuleEntries(output[..i + 1]) == ModuleEntries(output[..i]) + ChunkModules(output[i])
  {
    assert output[..i + 1][..i] == output[..i];
  }

  /**
   * The merge at the end of `getModuleGraph`: one node per captured id, in capture order,
   * with the captured edges passed through and the rendered length looked up (0 if absent).
   */
  method GetModuleGraph(captured: seq<CapturedModule>, output: seq<Artifact>) returns (graph: seq<ModuleGraphNode>)
    ensures |graph| == |captured|
    ensures forall i :: 0 <= i < |graph| ==>
              && graph[i].id == captured[i].id
              && graph[i].importedIds == captured[i].importedIds
              && graph[i].importers == captured[i].importers
              && graph[i].renderedLength == RenderedLengthOf(output, captured[i].id)
  {
    var renderedLengths := RenderedLengths(output);
    graph := [];
    for i := 0 to |captured|
      invariant |graph| == i
      invariant forall k :: 0 <= k < i ==>
                  graph[k] == ModuleGraphNode(captured[k].id, captured[k].importedIds, captured[k].importers,
                                              RenderedLengthOf(output, captured[k].id))
    {
      var c := captured[i];
      var length := if c.id in renderedLengths then renderedLengths[c.id] else 0;
      graph := graph + [ModuleGraphNode(c.id, c.importedIds, c.importers, length)];
    }
  }

  /** The rendered-length lookup: every chunk's modules recorded in output order, later ones overwriting. */
  method RenderedLengths(output: seq<Artifact>) returns (renderedLengths: map<string, nat>)
    ensures renderedLengths == LengthTable(ModuleEntries(output))
  {
    renderedLengths := map[];
    for i := 0 to |output|
      invariant renderedLengths == LengthTable(ModuleEntries(output[..i]))
    {
      ModuleEntriesSnoc(output, i);
      renderedLengths := RecordChunkLengths(renderedLengths, ModuleEntries(output[..i]), ChunkModules(output[i]));
    }
    assert output[..|output|] == output;
  }

  /** The inner loop: one chunk's modules recorded in order on top of the table built so far. */
  method RecordChunkLengths(table: map<string, nat>, ghost before: seq<RenderedModule>, modules: seq<RenderedModule>)
    returns (renderedLengths: map<string, nat>)
    requires table == LengthTable(before)
    ensures renderedLengths == LengthTable(before + modules)
  {
    renderedLengths := table;
    assert before + modules[..0] == before;
    for j := 0 to |modules|
      invariant renderedLengths == LengthTable(before + modules[..j])
    {
      assert before + modules[..j + 1] == (before + modules[..j]) + [modules[j]];
      LengthTableSnoc(before + modules[..j], modules[j]);
      renderedLengths := renderedLengths[modules[j].id := modules[j].renderedLength];
    }
    assert modules[..|modules|] == modules;
  }

  // ---------------------------------------------------------------------------
  // Tracked component names
  // ---------------------------------------------------------------------------

  const ChartComponentNames: seq<string> := [
    "LineChart", "BarChart", "AreaChart", "ScatterChart", "PieChart", "RadarChart",
    "RadialBarChart", "ComposedChart", "FunnelChart", "SunburstChart", "Treemap", "Sankey"]

  const CartesianComponentNames: seq<string> := [
    "Line", "Area", "Bar", "BarStack", "Scatter", "XAxis", "YAxis", "ZAxis", "ErrorBar", "Brush",
    "ReferenceLine", "ReferenceDot", "ReferenceArea", "CartesianAxis", "CartesianGrid", "Funnel"]

  const PolarComponentNames: seq<string> := [
    "Pie", "Radar", "RadialBar", "PolarGrid", "PolarAngleAxis", "PolarRadiusAxis"]

  const AllTrackedComponentNames: seq<string> := ChartComponentNames + CartesianComponentNames + PolarComponentNames
}
