# Story-book preview of the Carbon React components, modelled in Dafny

This project models the logic in the story-book preview configuration of the
Carbon React package (`packages/react/.storybook/preview.js`). That logic has three parts:

- **The story comparator** (`storySort`). Stories of different kinds are
  ordered by kind. Within a kind, each id gets a weight from a keyword table
  (welcome 0, default 1, usage 2, playground 4, development 5, deprecated 6,
  unstable 7; 3 when no keyword matches). Lower weights come first, and equal
  weights are ordered by id. The loop walks the table in order and overwrites
  the stored match on each hit, so an id gets the weight of the *last*
  keyword it contains, which is also the greatest one.
- **The sandbox generator** (`createReactApp`). It extracts the import lines
  of the story file with a multiline regular expression. It drops those that
  mention `'react'`, `.mdx` or `.scss`, and points relative imports at
  `carbon-components-react`. It then builds a fixed `index.js` around the
  demo snippet and returns a map of four files. `createChartSandbox` wraps
  each file as `{content}` and builds the sandbox link from it.
- **The decorator's snippet**. The story key is the second `--`-separated part
  of the story id. Its location is looked up, and the demo source is the
  `\n`-split story file sliced to `[startLoc.line, endLoc.line - 1)` and joined
  again.

Modules: `Wrappers` (an `Option` for the JavaScript `null`/`undefined` and
throwing paths), `JsString` and `JsArray` (the JavaScript string and array
operations the code calls, with their laws), `StorySort`, `ImportRegex`,
`ReactApp`, `ChartSandbox`, `Decorator`.

Things the proofs bring out:
- The early `break` of the keyword loop never fires. Every stored weight is
  below the weight of the keyword being looked at. This is an invariant of
  `StorySort.Compare`, which keeps the `break`.
- `match` returns `null` when the story file has no line starting with
  `import`, and `.filter` then throws. `ReactApp.CreateReactApp` is `None`
  exactly then.
- The regular expression matches only single lines, so a multi-line import
  statement contributes only its first line (for example `import {`). This
  follows from `ImportRegex.MatchImportsAreImportLines`.
- With an `endLoc.line` of 0, `slice(start, -1)` counts from the end, so the
  "empty range gives an empty snippet" rule holds only for end lines of at
  least 1 (`Decorator.DemoSourceEndLineZero`).
- The comparator is consistent only while the collation tells distinct kinds
  apart. With two kinds that are distinct but canonically equivalent, line 34
  sees them as different and line 35 returns 0. Two stories can then each
  compare equal to a third but not to each other. The model's code-point
  `LocaleCompare` excludes this case (see "## Left out").
- An id takes the greatest weight among the keywords it contains. The loop
  at lines 58-74 overwrites `matches` on every hit, and the comment at
  lines 56-57 asks for the greatest valued match (`StorySort.EffectiveWeightIsGreatestMatch`).
- The `'react'`, `.mdx` and `.scss` import statements never reach the
  *import block* of the generated `index.js`. This holds for the whole
  statement after the rewrite, including the appended
  `from 'carbon-components-react';` (`ReactApp.SandboxImportsClean`). The demo
  snippet goes into `index.js` unfiltered, so an import it contains stays
  there (`ReactApp.IndexJsWrapsDemo`).

## Model

| member | source | states |
|---|---|---|
| StorySort.Compare | packages/react/.storybook/preview.js:30-92 | The comparator's result equals `StoryOrder`: kinds first, then effective weights, then ids. The keyword loop's early exit is proved never to fire. |
| StorySort.MatchedWeightIsLast | packages/react/.storybook/preview.js:58-74 | What the loop has stored for an id after the first n keywords: nothing exactly when the id contains none of them; otherwise the weight of one it contains, with none of the first n that it contains after it in the table. |
| StorySort.MatchedWeightBelowNext | packages/react/.storybook/preview.js:59-63 | A match among the keywords already walked weighs less than the next keyword, so the early exit never fires. |
| StorySort.KeywordWeightsIncrease | packages/react/.storybook/preview.js:45-53 | The table's weights strictly increase in iteration order. |
| StorySort.EffectiveWeightIsGreatestMatch | packages/react/.storybook/preview.js:44-80 | About `StorySort.EffectiveWeight`, the weight the comparator uses (lines 79-80). An id's weight is at least the weight of every keyword it contains. It is the weight of one of them, or 3 when it contains none. |
| StorySort.StoryOrderIsKeyOrder | packages/react/.storybook/preview.js:30-92 | A negative (positive) result means the first (second) story comes first in the lexicographic order on (kind, weight, id). |
| StorySort.KindsCompareFirst | packages/react/.storybook/preview.js:34-36 | Stories of different kinds compare by kind alone: changing the ids changes nothing, and the result is never 0. |
| StorySort.LowerWeightFirst | packages/react/.storybook/preview.js:78-86 | Within one kind, the lower weight sorts first. |
| StorySort.StoryOrderZeroIffEqual | packages/react/.storybook/preview.js:30-92 | The result is 0 exactly for equal stories. |
| StorySort.StoryOrderAntisymmetric | packages/react/.storybook/preview.js:30-92 | Swapping the stories negates the result. |
| StorySort.StoryOrderTransitive | packages/react/.storybook/preview.js:30-92 | If a sorts before b and b before c, then a sorts before c. |
| JsString.LocaleCompare | packages/react/.storybook/preview.js:35 | Returns -1, 0 or 1, and 0 exactly on equal strings. |
| JsString.LocaleCompareAntisymmetric | packages/react/.storybook/preview.js:84 | Swapping the operands negates the comparison. |
| JsString.LocaleCompareTransitive | packages/react/.storybook/preview.js:91 | The string comparison is transitive. |
| JsString.IndexOf | packages/react/.storybook/preview.js:186 | Either the first index where the pattern occurs, or none when it occurs nowhere. |
| JsString.Includes | packages/react/.storybook/preview.js:67-71 | True exactly when the pattern occurs at some index. |
| JsString.SplitHead | packages/react/.storybook/preview.js:186 | `split(sep)[0]` is a prefix without `sep`. It is the whole string when `sep` does not occur; otherwise it runs exactly up to the first occurrence of `sep`. |
| JsString.SplitPiecesExcludeSeparator | packages/react/.storybook/preview.js:242 | No piece of a split contains the separator. |
| JsString.JoinSplit | packages/react/.storybook/preview.js:241-244 | Joining the pieces of a split with its separator gives the string back. |
| JsString.SplitJoin | packages/react/.storybook/preview.js:241-244 | Splitting a join on a one-character separator gives back the pieces, when none contains the separator. |
| ImportRegex.LineEnd | packages/react/.storybook/preview.js:145 | `.*$` stops at the first line terminator at or after the start, or at the end of the text. |
| ImportRegex.MatchImportsAreImportLines | packages/react/.storybook/preview.js:145-146 | About `ImportRegex.MatchImports`, the `match` call over the scanner `ImportRegex.MatchFrom`. The global multiline match gives exactly the lines that start with `import`, in text order. It gives `null` exactly when there are none. |
| ImportRegex.LinesHaveNoTerminator | packages/react/.storybook/preview.js:145 | No line holds a line terminator. |
| ImportRegex.JoinLinesFrom | packages/react/.storybook/preview.js:145 | For text whose only line terminator is `\n`, joining its lines with `\n` gives the text back. |
| ImportRegex.LinesOfLfText | packages/react/.storybook/preview.js:145 | For text whose only line terminator is `\n`, the lines are the pieces of `split('\n')`. |
| JsArray.FilterMembership | packages/react/.storybook/preview.js:176-182 | A statement survives the filter exactly when it was present and passes the predicate. |
| JsArray.FilterConcat | packages/react/.storybook/preview.js:176-182 | The filter keeps relative order: it distributes over concatenation. |
| JsArray.FilterEmpty | packages/react/.storybook/preview.js:146 | The filter leaves nothing exactly when no element passes. |
| JsArray.Map | packages/react/.storybook/preview.js:183-191 | `map` keeps the length and applies the function at every index. |
| ReactApp.ParentPathIsRelativePath | packages/react/.storybook/preview.js:184 | The `../` test adds nothing to the `./` test. |
| ReactApp.RewriteImport | packages/react/.storybook/preview.js:183-191 | A relative statement becomes a prefix without `from` (the whole statement, or the text up to its first `from`) followed by `from 'carbon-components-react';`. Any other statement is unchanged. |
| ReactApp.FromPublicPackageStartsWithFrom | packages/react/.storybook/preview.js:187 | The appended clause starts with `from`. |
| ReactApp.RewriteRewritten | packages/react/.storybook/preview.js:183-191 | A statement already ending in the package clause, with no `from` before it, is its own rewrite. |
| ReactApp.RewriteImportIdempotent | packages/react/.storybook/preview.js:183-191 | Rewriting twice is the same as rewriting once. |
| ReactApp.PublicClauseKept | packages/react/.storybook/preview.js:187 | The appended `from 'carbon-components-react';` mentions none of `'react'`, `.mdx`, `.scss`. |
| ReactApp.RewriteKeepsStatementClean | packages/react/.storybook/preview.js:176-191 | A statement the filter keeps is still one it would keep after the rewrite, appended clause included. |
| ReactApp.SandboxImportsFromKept | packages/react/.storybook/preview.js:175-192 | Each sandbox import is the rewrite of a kept statement of the story file, and each kept statement's rewrite is there. |
| ReactApp.SandboxImportsClean | packages/react/.storybook/preview.js:175-192 | About the filter predicate `ReactApp.KeepImport` (lines 176-182) and `ReactApp.SandboxImports`. No statement of the generated import block mentions `'react'`, `.mdx` or `.scss`. |
| ReactApp.RewriteImportNoLineFeed | packages/react/.storybook/preview.js:183-191 | Rewriting a statement without `\n` adds no `\n`. |
| ReactApp.ImportBlockLines | packages/react/.storybook/preview.js:175-192 | Split on `\n`, the import block of `index.js` is exactly the sandbox imports in order. |
| ReactApp.StoryImportBlockLines | packages/react/.storybook/preview.js:145-192 | For the import lines found in a story file, the block is empty when the filter drops them all. Otherwise, split on `\n`, it is exactly the sandbox imports in order. |
| ReactApp.IndexJsWrapsDemo | packages/react/.storybook/preview.js:172-200 | About `ReactApp.IndexJs`, the `index.js` template. It starts with the fixed React and ReactDOM imports, ends with the render call, and contains the `App` wrapper around the demo source, unfiltered. |
| ReactApp.EmptyDemoGivesEmptyApp | packages/react/.storybook/preview.js:196-198 | An empty demo source still gives `const App = () => {\n\n}`. |
| ReactApp.CreateReactApp | packages/react/.storybook/preview.js:144-229 | `None` exactly when no line of the story file starts with `import`. Otherwise exactly the four files, with `src/index.js` built from the import lines and the demo source. |
| ChartSandbox.WrapFiles | packages/react/.storybook/preview.js:127-131 | The `files` object has the template's paths, each holding that path's content. |
| ChartSandbox.UnwrapWrapFiles | packages/react/.storybook/preview.js:127-131 | Unwrapping the files gives back the template. |
| ChartSandbox.CreateChartSandbox | packages/react/.storybook/preview.js:126-136 | The loop builds exactly the wrapped files, and the link is the define URL followed by their encoding. |
| Decorator.StoryKeyOfStoryId | packages/react/.storybook/preview.js:237 | About `Decorator.StoryKey`, `split('--')[1]`. For an id `title--name` where the title does not run into the `--` and the name has no `--`, the story key is the name. |
| Decorator.NoStoryKeyWithoutSeparator | packages/react/.storybook/preview.js:237-238 | An id without `--` has no story key, and the lookup uses the property name `"undefined"`. |
| Decorator.DemoSourceEmptyRange | packages/react/.storybook/preview.js:241-244 | The snippet is empty when `startLoc.line >= endLoc.line - 1`, for an end line of at least 1. |
| Decorator.DemoSourceLines | packages/react/.storybook/preview.js:241-244 | About `Decorator.DemoSource`, the split/slice/join, with `JsArray.Slice` clamping like `Array.prototype.slice` (line 243). For a non-empty range that starts inside the file, the snippet split on `\n` is exactly the file's lines in the range, cut at the end of the file. |
| Decorator.DemoSourcePastEnd | packages/react/.storybook/preview.js:241-244 | A range starting past the last line gives an empty snippet, whatever its end line. |
| Decorator.DemoSourceEndLineZero | packages/react/.storybook/preview.js:241-244 | With an end line of 0, `slice` counts from the end: from line 0 the snippet is every line but the last. |
| Decorator.CodeSampleHref | packages/react/.storybook/preview.js:232-252 | The link is `None` when the location or the import lines are missing (where the decorator throws). Otherwise it is the sandbox link of the generated app. |

## Left out

- Story-book registration (`addParameters`, `configureActions`, `addDecorator`) and the JSX the decorator returns: host wiring and markup (lines 21, 96-103, 246-257).
- The theme and type-token channel handlers: event subscription, DOM updates and floating-point `rem` arithmetic (lines 105-124).
- `getParameters` of `codesandbox/lib/api/define` is not part of this model. It is a function parameter with no properties, so the link is stated up to that encoding.
- The `console.log` diagnostic (line 147).
- JsString.LocaleCompare: the host's locale collation is replaced by the code-point lexicographic order, which returns 0 only on equal strings. A host collation (`String.prototype.localeCompare` as ECMA-262 specifies it) also returns 0 on distinct strings that are canonically equivalent, such as `é` written as U+00E9 and as `e` followed by U+0301. The model rules that out. So `StorySort.StoryOrderZeroIffEqual`, the non-zero clause of `StorySort.KindsCompareFirst` and the total order of `StorySort.StoryOrderTransitive` hold for the code-point order, not for every host.
- Characters are Unicode scalar values, not UTF-16 code units. Nothing modelled depends on the difference.
- Property order of JavaScript objects (the `files` object, `package.json`): objects are maps, so the order in which keys are inserted or serialised is not modelled.
- `locationsMap[key]` finds only the map's own entries. Keys inherited from `Object.prototype` (such as `constructor`) are not modelled.
- Thrown `TypeError`s are modelled as `None`: `.filter` on a `null` match, and destructuring a missing location. Which error is thrown is not modelled.
- The column of `startLoc`/`endLoc` is unused by the code and not modelled.
- packages/carbon-react/src/components/Search/Search.stories.js declares JSX stories only and has no logic to model.
