/** `createReactApp`: turn a story's demo snippet and the full text of its
    story file into the four files of a stand-alone React sandbox. */
module ReactApp {
  import opened Wrappers
  import opened JsString
  import opened JsArray
  import opened ImportRegex

  /** The manifest object of the sandbox. */
  datatype PackageJson = PackageJson(
    name: string,
    version: string,
    isPrivate: bool,
    dependencies: map<string, string>,
    scripts: map<string, string>,
    browserslist: seq<string>)

  /** A file of the sandbox: text, or the manifest object. */
  datatype FileContent = Text(text: string) | Manifest(manifest: PackageJson)

  /** The four paths of the generated sandbox. */
  const IndexHtmlPath := "src/public/index.html"
  const IndexJsPath := "src/index.js"
  const PlexFontPath := "src/plex-font.css"
  const PackageJsonPath := "package.json"

  /** The public package relative imports are redirected to. */
  const PublicPackage := "carbon-components-react"
  const FromPublicPackage := "from" + " '" + PublicPackage + "';"

  const PlexFontCss :=
    "@import \"https://fonts.googleapis.com/css?family=IBM+Plex+Sans+Condensed|IBM+Plex+Sans:400,600&display=swap\";\n" +
    "\n" +
    "html, body {\n" +
    "  font-family: \"IBM Plex Sans\";\n" +
    "}"

  const IndexHtml :=
    "<!DOCTYPE html>\n" +
    "<html lang=\"en\">\n" +
    "  <head>\n" +
    "    <meta charset=\"utf-8\">\n" +
    "    <meta name=\"viewport\" content=\"width=device-width, initial-scale=1, shrink-to-fit=no\">\n" +
    "    <meta name=\"theme-color\" content=\"#000000\">\n" +
    "    <!--\n" +
    "        manifest.json provides metadata used when your web app is added to the\n" +
    "        homescreen on Android. See https://developers.google.com/web/fundamentals/engage-and-retain/web-app-manifest/\n" +
    "      -->\n" +
    "    <link rel=\"stylesheet\" href=\"https://unpkg.com/carbon-components/css/carbon-components.min.css\">\n" +
    "    <title>React App</title>\n" +
    "  </head>\n" +
    "\n" +
    "  <body>\n" +
    "    <noscript>\n" +
    "      You need to enable JavaScript to run this app.\n" +
    "    </noscript>\n" +
    "    <div id=\"root\"></div>\n" +
    "  </body>\n" +
    "</html>\n" +
    "  "

  const SandboxPackageJson := PackageJson(
    "codesandbox",
    "0.1.0",
    true,
    map[
      "@storybook/addon-knobs" := "6.3.1",
      "@storybook/addons" := "6.3.12",
      "@storybook/client-api" := "6.3.12",
      "carbon-components-react" := "latest",
      "react" := "16.12.0",
      "react-dom" := "16.12.0",
      "react-scripts" := "3.0.1"],
    map[
      "start" := "react-scripts start",
      "build" := "react-scripts build",
      "test" := "react-scripts test",
      "eject" := "react-scripts eject"],
    [">0.2%", "not dead", "not ie <= 11", "not op_mini all"])

  /** The parts of the `index.js` template around the import block and the
      demo snippet. */
  const JsHeader := "import React from \"react\";\nimport ReactDOM from \"react-dom\";\n\n"
  const AppOpening := "const App = () => {\n"
  const PlexFontImport := "\n\nimport \"./plex-font.css\";\n\n"
  const AppClosing := "\n}"
  const RenderApp := "\nReactDOM.render(<App />, document.getElementById(\"root\"));\n  "

  /** An import statement the sandbox needs: it mentions neither the `'react'`
      module, nor an `.mdx` document, nor an `.scss` stylesheet. */
  predicate KeepImport(statement: string) {
    !Includes(statement, "'react'") && !Includes(statement, ".mdx") && !Includes(statement, ".scss")
  }

  /** The statement imports through a relative path. */
  predicate IsRelative(statement: string) {
    Includes(statement, "../") || Includes(statement, "./")
  }

  /** The `../` test is subsumed by the `./` test. */
  lemma ParentPathIsRelativePath(statement: string)
    ensures IsRelative(statement) <==> Includes(statement, "./")
  {
    if Includes(statement, "../") {
      var i: nat :| OccursAt(statement, "../", i);
      assert statement[i + 1..i + 3] == statement[i..i + 3][1..];
      assert OccursAt(statement, "./", i + 1);
    }
  }

  /** A relative import keeps its text before the first `from` and is
      redirected to the public package; any other import is left alone. */
  function RewriteImport(statement: string): (r: string)
    ensures !IsRelative(statement) ==> r == statement
    ensures IsRelative(statement) ==>
      |FromPublicPackage| <= |r| && r[|r| - |FromPublicPackage|..] == FromPublicPackage &&
      var bindings := r[..|r| - |FromPublicPackage|];
      StartsWith(statement, bindings) && !Includes(bindings, "from") &&
      (bindings == statement || OccursAt(statement, "from", |bindings|))
  {
    if IsRelative(statement) then
      var bindings := Split(statement, "from")[0];
      SplitHead(statement, "from");
      assert (bindings + FromPublicPackage)[..|bindings|] == bindings;
      bindings + FromPublicPackage
    else statement
  }

  /** The appended clause starts with `from`, and an occurrence of `from` that
      begins before it cannot run into it. */
  lemma FromPublicPackageStartsWithFrom()
    ensures StartsWith(FromPublicPackage, "from")
    ensures forall k :: 1 <= k < |"from"| ==> "from"[k] != FromPublicPackage[0]
  {
  }

  /** A statement that already ends in the public package clause, with no
      `from` before it, is its own rewrite. */
  lemma RewriteRewritten(bindings: string)
    requires !Includes(bindings, "from")
    ensures RewriteImport(bindings + FromPublicPackage) == bindings + FromPublicPackage
  {
    var r := bindings + FromPublicPackage;
    if IsRelative(r) {
      FromPublicPackageStartsWithFrom();
      IndexOfAtSeam(bindings, FromPublicPackage, "from");
      assert Split(r, "from")[0] == r[..|bindings|] == bindings;
    }
  }

  /** Rewriting an already rewritten statement changes nothing. */
  lemma RewriteImportIdempotent(statement: string)
    ensures RewriteImport(RewriteImport(statement)) == RewriteImport(statement)
  {
    if IsRelative(statement) {
      var r := RewriteImport(statement);
      var bindings := r[..|r| - |FromPublicPackage|];
      assert r == bindings + FromPublicPackage;
      RewriteRewritten(bindings);
    }
  }

  /** A kept statement still mentions neither `'react'`, `.mdx` nor `.scss`
      in the text it keeps before the new module specifier. */
  lemma RewriteKeepsBindingsClean(statement: string)
    requires KeepImport(statement)
    requires IsRelative(statement)
    ensures KeepImport(RewriteImport(statement)[..|RewriteImport(statement)| - |FromPublicPackage|])
  {
    var r := RewriteImport(statement);
    var n := |r| - |FromPublicPackage|;
    assert statement[..n] == r[..n];
    PrefixExcludes(statement, "'react'", n);
    PrefixExcludes(statement, ".mdx", n);
    PrefixExcludes(statement, ".scss", n);
  }

  /** A text made of pieces like those of the appended clause
      (`from 'carb`, `on-components`, `-react'`, `;`) never mentions
      `'react'`: the only quote that could open it is followed by `-`,
      and no piece starts with a letter that could continue it. */
  lemma ClausePiecesExcludeReact(head: string, middle: string, quoted: string, semicolon: string)
    requires head == "from 'carb" && middle == "on-components" && quoted == "-react'" && semicolon == ";"
    ensures !Includes(head + (middle + (quoted + semicolon)), "'react'")
  {
    var react := "'react'";
    ExcludesByChar(head, react, 2);
    ExcludesByChar(middle, react, 0);
    forall i: nat ensures !OccursAt(quoted, react, i) {
      if i + 7 <= |quoted| {
        assert quoted[i..i + 7][0] == quoted[0];
      }
    }
    ExcludesByChar(semicolon, react, 0);
    IncludesConcat(quoted, semicolon, react);
    IncludesConcat(middle, quoted + semicolon, react);
    IncludesConcat(head, middle + (quoted + semicolon), react);
  }

  /** The clause the rewrite appends mentions neither `'react'`, `.mdx` nor
      `.scss`: its only quotes sit around `carbon-components-react`, and it
      has no `.`. */
  lemma PublicClauseKept()
    ensures KeepImport(FromPublicPackage)
  {
    var head, middle, quoted, semicolon := "from 'carb", "on-components", "-react'", ";";
    assert FromPublicPackage == head + (middle + (quoted + semicolon));
    ClausePiecesExcludeReact(head, middle, quoted, semicolon);
    ExcludesByChar(FromPublicPackage, ".mdx", 0);
    ExcludesByChar(FromPublicPackage, ".scss", 0);
  }

  /** Rewriting a kept statement gives a kept statement: the whole text the
      sandbox receives, new module specifier included, still mentions
      neither `'react'`, `.mdx` nor `.scss`. */
  lemma RewriteKeepsStatementClean(statement: string)
    requires KeepImport(statement)
    ensures KeepImport(RewriteImport(statement))
  {
    if IsRelative(statement) {
      var r := RewriteImport(statement);
      var bindings := r[..|r| - |FromPublicPackage|];
      assert r == bindings + FromPublicPackage;
      RewriteKeepsBindingsClean(statement);
      PublicClauseKept();
      assert FromPublicPackage[0] == 'f';
      IncludesConcat(bindings, FromPublicPackage, "'react'");
      IncludesConcat(bindings, FromPublicPackage, ".mdx");
      IncludesConcat(bindings, FromPublicPackage, ".scss");
    }
  }

  /** The import statements of the sandbox: the kept ones, rewritten. */
  function SandboxImports(statements: seq<string>): seq<string> {
    Map(Filter(statements, KeepImport), RewriteImport)
  }

  /** Every statement of the sandbox came from a kept statement of the story
      file, and every kept statement of the story file is there. */
  lemma SandboxImportsFromKept(statements: seq<string>)
    ensures forall x :: x in SandboxImports(statements) ==>
              exists y :: y in statements && KeepImport(y) && x == RewriteImport(y)
    ensures forall y :: y in statements && KeepImport(y) ==> RewriteImport(y) in SandboxImports(statements)
  {
    var kept := Filter(statements, KeepImport);
    forall x | x in SandboxImports(statements)
      ensures exists y :: y in statements && KeepImport(y) && x == RewriteImport(y)
    {
      var k :| 0 <= k < |kept| && SandboxImports(statements)[k] == x;
      FilterMembership(statements, KeepImport, kept[k]);
    }
    forall y | y in statements && KeepImport(y) ensures RewriteImport(y) in SandboxImports(statements) {
      FilterMembership(statements, KeepImport, y);
      var k :| 0 <= k < |kept| && kept[k] == y;
      assert SandboxImports(statements)[k] == RewriteImport(y);
    }
  }

  /** No import statement of the sandbox mentions `'react'`, `.mdx` or
      `.scss`. */
  lemma SandboxImportsClean(statements: seq<string>)
    ensures forall x :: x in SandboxImports(statements) ==> KeepImport(x)
  {
    SandboxImportsFromKept(statements);
    forall x | x in SandboxImports(statements) ensures KeepImport(x) {
      var y :| y in statements && KeepImport(y) && x == RewriteImport(y);
      RewriteKeepsStatementClean(y);
    }
  }

  /** The import block of `index.js`: the sandbox imports, one per line. */
  function ImportBlock(statements: seq<string>): string {
    Join(SandboxImports(statements), "\n")
  }

  /** A statement found by the regular expression holds no line feed, and
      neither does its rewrite. */
  lemma RewriteImportNoLineFeed(statement: string)
    requires '\n' !in statement
    ensures '\n' !in RewriteImport(statement)
  {
    if IsRelative(statement) {
      var r := RewriteImport(statement);
      var n := |r| - |FromPublicPackage|;
      assert r == r[..n] + FromPublicPackage;
      assert r[..n] == statement[..n];
      assert '\n' !in FromPublicPackage;
    }
  }

  /** The import block reads back, line by line, as exactly the sandbox
      imports, in order, when there is at least one and the statements hold
      no line feed. */
  lemma ImportBlockLines(statements: seq<string>)
    requires forall k :: 0 <= k < |statements| ==> '\n' !in statements[k]
    requires SandboxImports(statements) != []
    ensures Split(ImportBlock(statements), "\n") == SandboxImports(statements)
  {
    var imports := SandboxImports(statements);
    var kept := Filter(statements, KeepImport);
    forall k | 0 <= k < |imports| ensures '\n' !in imports[k] {
      FilterMembership(statements, KeepImport, kept[k]);
      RewriteImportNoLineFeed(kept[k]);
    }
    SplitJoin(imports, '\n');
  }

  /** For the import lines the regular expression finds in a story file, the
      import block is empty when every one of them is dropped, and otherwise
      reads back, line by line, as exactly the sandbox imports, in order. */
  lemma StoryImportBlockLines(fullStorySource: string)
    ensures var statements := Filter(Lines(fullStorySource), IsImportLine);
            (SandboxImports(statements) == [] ==> ImportBlock(statements) == "") &&
            (SandboxImports(statements) != [] ==> Split(ImportBlock(statements), "\n") == SandboxImports(statements))
  {
    var lines := Lines(fullStorySource);
    var statements := Filter(lines, IsImportLine);
    LinesHaveNoTerminator(fullStorySource, 0);
    forall k | 0 <= k < |statements| ensures '\n' !in statements[k] {
      FilterMembership(lines, IsImportLine, statements[k]);
      var j :| 0 <= j < |lines| && lines[j] == statements[k];
      assert forall q :: 0 <= q < |lines[j]| ==> !IsLineTerminator(lines[j][q]);
    }
    if SandboxImports(statements) != [] {
      ImportBlockLines(statements);
    }
  }

  /** The `App` component whose body is the demo snippet. */
  function AppWrapper(demoSource: string): string {
    AppOpening + demoSource + AppClosing
  }

  /** The `index.js` of the sandbox. */
  function IndexJs(statements: seq<string>, demoSource: string): string {
    JsHeader + ImportBlock(statements) + PlexFontImport + AppWrapper(demoSource) + RenderApp
  }

  /** `index.js` begins with the fixed React and ReactDOM imports, ends with
      the render call, and holds the `App` wrapper around the demo snippet. */
  lemma IndexJsWrapsDemo(statements: seq<string>, demoSource: string)
    ensures StartsWith(IndexJs(statements, demoSource), JsHeader)
    ensures Includes(IndexJs(statements, demoSource), AppWrapper(demoSource))
    ensures var text := IndexJs(statements, demoSource);
            |RenderApp| <= |text| && text[|text| - |RenderApp|..] == RenderApp
  {
    var body := JsHeader + ImportBlock(statements) + PlexFontImport + AppWrapper(demoSource);
    TemplateParts(JsHeader, ImportBlock(statements), PlexFontImport, AppWrapper(demoSource), RenderApp);
    assert IndexJs(statements, demoSource) == body + RenderApp;
    assert (body + RenderApp)[|body|..] == RenderApp;
  }

  /** An empty demo snippet still gives a well-formed `App` with an empty body. */
  lemma EmptyDemoGivesEmptyApp(statements: seq<string>)
    ensures Includes(IndexJs(statements, ""), "const App = () => {\n\n}")
  {
    IndexJsWrapsDemo(statements, "");
    assert AppWrapper("") == "const App = () => {\n\n}";
  }

  /** `createReactApp(demoSource, fullStorySource)`: `None` when the story
      file has no import line (`match` yields `null` and `.filter` throws),
      otherwise the four sandbox files. */
  function CreateReactApp(demoSource: string, fullStorySource: string): (files: Option<map<string, FileContent>>)
    ensures files.None? <==> forall k :: 0 <= k < |Lines(fullStorySource)| ==> !IsImportLine(Lines(fullStorySource)[k])
    ensures files.Some? ==>
      files.value.Keys == {IndexHtmlPath, IndexJsPath, PlexFontPath, PackageJsonPath} &&
      files.value[IndexHtmlPath] == Text(IndexHtml) &&
      files.value[IndexJsPath] == Text(IndexJs(Filter(Lines(fullStorySource), IsImportLine), demoSource)) &&
      files.value[PlexFontPath] == Text(PlexFontCss) &&
      files.value[PackageJsonPath] == Manifest(SandboxPackageJson)
  {
    MatchImportsAreImportLines(fullStorySource);
    FilterEmpty(Lines(fullStorySource), IsImportLine);
    match MatchImports(fullStorySource)
    case None => None
    case Some(importStatements) =>
      Some(map[
        IndexHtmlPath := Text(IndexHtml),
        IndexJsPath := Text(IndexJs(importStatements, demoSource)),
        PlexFontPath := Text(PlexFontCss),
        PackageJsonPath := Manifest(SandboxPackageJson)])
  }
}
