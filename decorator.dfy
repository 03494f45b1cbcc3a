/** The story decorator's computation of the code-sample link: find the
    story's location, cut its demo snippet out of the story file, build the
    sandbox and its link. */
module Decorator {
  import opened Wrappers
  import opened JsString
  import opened JsArray
  import opened ReactApp
  import opened ChartSandbox

  /** A source position; only its line is used. */
  datatype Position = Position(line: int)

  /** A story's entry in the story source's `locationsMap`. */
  datatype StoryLocation = StoryLocation(startLoc: Position, endLoc: Position)

  /** `id.split('--')[1]`: the story's own name, `None` (JavaScript's
      `undefined`) when the id holds no `--`. */
  function StoryKey(id: string): Option<string> {
    var parts := Split(id, "--");
    if |parts| >= 2 then Some(parts[1]) else None
  }

  /** The property key `locationsMap[storyKey]` reads: `undefined` is turned
      into the string `"undefined"`. */
  function LocationsKey(id: string): string {
    StoryKey(id).GetOr("undefined")
  }

  /** For an id `title--name` whose title does not run into the `--` and
      whose name holds no `--`, the story key is the name. */
  lemma StoryKeyOfStoryId(title: string, name: string)
    requires !Includes(title + "-", "--")
    requires !Includes(name, "--")
    ensures StoryKey(title + "--" + name) == Some(name)
  {
    var id := title + "--" + name;
    OccursInMiddle(title, "--", name);
    forall j: nat | j < |title| ensures !OccursAt(id, "--", j) {
      assert id[..|title| + 1] == title + "-";
      OccursInPrefix(id, "--", |title| + 1, j);
    }
    IndexOfUnique(id, "--", |title|);
    assert id[..|title|] == title;
    assert id[|title| + 2..] == name;
    assert Split(name, "--") == [name];
  }

  /** An id without `--` has no story key, and the lookup uses `"undefined"`. */
  lemma NoStoryKeyWithoutSeparator(id: string)
    requires !Includes(id, "--")
    ensures StoryKey(id) == None && LocationsKey(id) == "undefined"
  {
  }

  /** The demo snippet: the lines of the story file from index `startLine`
      up to, not including, index `endLine - 1`, as `slice` cuts them. */
  function DemoSource(fullStorySource: string, startLine: int, endLine: int): string {
    Join(Slice(Split(fullStorySource, "\n"), startLine, endLine - 1), "\n")
  }

  /** The snippet is empty when the range is empty (for an end line of at
      least 1, so that `endLine - 1` does not count from the end). */
  lemma DemoSourceEmptyRange(fullStorySource: string, startLine: int, endLine: int)
    requires 0 <= startLine && 1 <= endLine && endLine - 1 <= startLine
    ensures DemoSource(fullStorySource, startLine, endLine) == ""
  {
    SliceNonNegative(Split(fullStorySource, "\n"), startLine, endLine - 1);
  }

  /** An end line of 0 makes `slice` stop one line before the end of the
      file: from line 0, the snippet is every line but the last. */
  lemma DemoSourceEndLineZero(fullStorySource: string)
    requires |Split(fullStorySource, "\n")| >= 2
    ensures var lines := Split(fullStorySource, "\n");
            Split(DemoSource(fullStorySource, 0, 0), "\n") == lines[..|lines| - 1]
  {
    var lines := Split(fullStorySource, "\n");
    assert Slice(lines, 0, -1) == lines[0..|lines| - 1];
    SplitPiecesExcludeSeparator(fullStorySource, "\n");
    var piece := lines[..|lines| - 1];
    forall k | 0 <= k < |piece| ensures '\n' !in piece[k] {
      IncludesChar(piece[k], '\n');
    }
    SplitJoin(piece, '\n');
  }

  /** A range that starts past the last line of the story file gives an
      empty snippet, whatever its end line. */
  lemma DemoSourcePastEnd(fullStorySource: string, startLine: int, endLine: int)
    requires 0 <= startLine
    requires |Split(fullStorySource, "\n")| <= startLine
    ensures DemoSource(fullStorySource, startLine, endLine) == ""
  {
    assert SliceIndex(startLine, |Split(fullStorySource, "\n")|) == |Split(fullStorySource, "\n")|;
  }

  /** A non-empty range gives back, line by line, exactly the lines of the
      story file in the range, cut at the end of the file. */
  lemma DemoSourceLines(fullStorySource: string, startLine: int, endLine: int)
    requires 0 <= startLine < endLine - 1
    requires startLine < |Split(fullStorySource, "\n")|
    ensures var lines := Split(fullStorySource, "\n");
            var stop := if endLine - 1 <= |lines| then endLine - 1 else |lines|;
            Split(DemoSource(fullStorySource, startLine, endLine), "\n") == lines[startLine..stop]
  {
    var lines := Split(fullStorySource, "\n");
    var stop := if endLine - 1 <= |lines| then endLine - 1 else |lines|;
    SliceNonNegative(lines, startLine, endLine - 1);
    SplitPiecesExcludeSeparator(fullStorySource, "\n");
    var piece := lines[startLine..stop];
    forall k | 0 <= k < |piece| ensures '\n' !in piece[k] {
      IncludesChar(piece[k], '\n');
    }
    SplitJoin(piece, '\n');
  }

  /** The snippet of the story `id`: `None` when `locationsMap` has no entry
      for its key, where destructuring `undefined` throws. */
  function StoryDemoSource(id: string, locationsMap: map<string, StoryLocation>, fullStorySource: string): Option<string> {
    var key := LocationsKey(id);
    if key in locationsMap then
      Some(DemoSource(fullStorySource, locationsMap[key].startLoc.line, locationsMap[key].endLoc.line))
    else None
  }

  /** The `href` of the code-sample link, `None` where the decorator throws. */
  method CodeSampleHref(id: string, locationsMap: map<string, StoryLocation>, fullStorySource: string,
                        getParameters: SandboxDefinition -> string)
    returns (href: Option<string>)
    ensures StoryDemoSource(id, locationsMap, fullStorySource).None? ==> href.None?
    ensures StoryDemoSource(id, locationsMap, fullStorySource).Some? ==>
      var app := CreateReactApp(StoryDemoSource(id, locationsMap, fullStorySource).value, fullStorySource);
      href == if app.None? then None
              else Some(DefineUrl + getParameters(SandboxDefinition(WrapFiles(app.value))))
  {
    var demoSource := StoryDemoSource(id, locationsMap, fullStorySource);
    if demoSource.None? {
      return None;
    }
    var app := CreateReactApp(demoSource.value, fullStorySource);
    if app.None? {
      return None;
    }
    var url := CreateChartSandbox(app.value, getParameters);
    return Some(url);
  }
}
