# fraugsleeves.dev core logic in Dafny

This project models the pure logic of the fraugsleeves.dev site (an Astro blog
written in TypeScript) and proves properties of it. Six pieces are covered:

- **Table-of-contents builder** (`src/components/toc/buildTree.ts`). It turns
  the page's headings, a flat list tagged with depths, into a forest.
  - Module `Toc` models the code as written. A heading is its input position
    and its depth. The `children` fields form one table indexed by position,
    threaded through the computation, so resetting a heading visited twice is
    seen everywhere.
  - Module `TocCases` traces that code on fixed inputs.
  - Module `TocReference` is the builder the tests describe. The rest of the
    model treats it as the corrected definition.
- **Navigation highlighting** (`src/components/navigation/isActive.ts`),
  module `Navigation`: exact and path-prefix matching of the current path
  against a link.
- **Title formatter** (`src/components/formatText.ts`), module `FormatText`:
  - the HTML escape, made of five sequential replacements;
  - six global regular-expression replacements, each written as a matcher
    with JavaScript's semantics: leftmost match, lazy `+?` content, `.` not
    matching line terminators, lookbehind and lookahead.
- **Tag aggregation** (`src/components/tags/getTags.ts`), module `Tags`:
  - the sorted distinct tags;
  - the per-tag usage counts;
  - both taken over the posts' tag lists.
- **Numeric-reference tagger** (`src/rehype-numeric-references.ts`), module
  `NumericReferences`. This is the per-element step that adds the class
  `numeric-reference` to links reading `[n]`.
- **Font CSS rewriting** (`src/integrations/fonts.ts`):
  - module `Fonts` holds the font-file test, `transformCss` and
    `filterCssFontFaces`, with the two regular expressions written as
    deterministic matchers;
  - module `FontsRewrite` proves that `transformCss` is idempotent.

Module `Wrappers` holds the `Option` type. An absent input (`undefined`,
a missing `tags` field or property, no filter) is `None`.

## Model

| member | source | states |
|---|---|---|
| Toc.BuildTree | src/components/toc/buildTree.ts:38-56 | An absent input gives an empty forest, and so does an empty one. Otherwise the first heading is the first root and every heading has a children entry. |
| Toc.Subtree | src/components/toc/buildTree.ts:3-11 | buildSubtree called past the last heading returns 0 and leaves the children table as it was. Otherwise the table keeps one entry per heading. SubtreeKeepsTable states what a call attaches. |
| Toc.SubtreeLoop | src/components/toc/buildTree.ts:13-35 | The loop never returns less than the count it has accumulated, and it keeps one children entry per heading. |
| Toc.RootLoop | src/components/toc/buildTree.ts:45-53 | The root loop keeps one children entry per heading. |
| Toc.SubtreeKeepsTable | src/components/toc/buildTree.ts:13-33 | Each nested buildSubtree call leaves only valid children lists. It does not touch the entries before its parent. |
| Toc.LoopKeepsTable | src/components/toc/buildTree.ts:15-32 | Each iteration attaches `offset` to the parent: later, strictly deeper, never the last heading, after every earlier child. It changes no entry before `offset` except the parent's. |
| Toc.RootLoopShape | src/components/toc/buildTree.ts:45-53 | The roots are collected in strictly increasing input order, starting at the cursor. The children table stays valid. |
| Toc.BuildTreeShape | src/components/toc/buildTree.ts:14-33 | In the built forest, every child lies later and is strictly deeper than its parent. Every children list is ascending, and the last heading is no one's child. |
| Toc.CountIsLength | test/components/toc/headingUtilties.ts:12-32 | countHeadings equals the length of the collectTexts listing on every table. |
| Toc.FlatRun | src/components/toc/buildTree.ts:47-53 | When no heading is deeper than its predecessor, every heading becomes a childless root, in input order. |
| Toc.TwoHeadings | src/components/toc/buildTree.ts:15 | Two headings always give two childless roots, whatever their depths. |
| TocCases.SiblingsMisordered | src/components/toc/buildTree.ts:27 | On depths [2,3,3,2,3,2] the pre-order listing is not the input order. Heading 3 is missing from it. |
| TocCases.SiblingsCount | src/components/toc/buildTree.ts:27 | On the same input the heading count is still 6, because a duplicate makes up for the missing heading. |
| TocCases.ReturnToTopInOrder | test/components/toc/buildTree.test.ts:247-263 | On the test's input the listing is the input order. |
| TocCases.ReturnToTopCount | test/components/toc/buildTree.test.ts:247-259 | On the test's input the count is 6. |
| TocCases.OrderTestInOrder | test/components/toc/buildTree.test.ts:206-231 | On the test's input the listing is the input order. |
| TocCases.OrderTestCount | test/components/toc/buildTree.test.ts:206-219 | On the test's input the count is 7. |
| TocReference.Build | test/components/toc/buildTree.test.ts:8-16 | An absent input gives no trees. A present input gives none exactly when it is empty. |
| TocReference.ListsEveryHeading | test/components/toc/buildTree.test.ts:176-263 | For every input, the pre-order listing is the input positions in order and the count is the input length. Every child is deeper than its parent. |
| TocReference.NestsLastHeading | test/components/toc/buildTree.test.ts:46-54 | A heading followed by a deeper one gives one root with one child. |
| TocReference.GettingStarted | test/components/toc/buildTree.test.ts:148-167 | The "Getting Started" section has two children, and the second of them has three children. |
| TocReference.BasicUsage | test/components/toc/buildTree.test.ts:154-172 | "Basic Usage" has two children, and "Conclusion" follows it as a root. |
| TocReference.BlogPostShape | test/components/toc/buildTree.test.ts:145-173 | Every assertion of the blog-post test holds for the corrected builder. |
| Navigation.StartsWith | src/components/navigation/isActive.ts:10 | startsWith holds iff p is a prefix of s. |
| Navigation.IsActive | src/components/navigation/isActive.ts:1-11 | With `exact`, the link is active iff the paths are equal. Without it, it is active iff they are equal or the current path continues the link's path with a `/`. |
| Navigation.ActiveForItself | src/components/navigation/isActive.ts:7 | A path is active for itself under either flag. |
| Navigation.ExactNarrows | src/components/navigation/isActive.ts:6-10 | An exact match is also a non-exact one. |
| Navigation.BelowIsActive | src/components/navigation/isActive.ts:10 | `href/rest` is active only without `exact`. |
| Navigation.SharedPrefixNotActive | src/components/navigation/isActive.ts:10 | A path extending `href` without a `/` right after it is not active. |
| Navigation.BloggingIsNotBlog | src/components/navigation/isActive.ts:10 | `/blogging` is not active for `/blog`. |
| Navigation.ActiveIsLonger | src/components/navigation/isActive.ts:10 | An active path is at least as long as the link's path. |
| FormatText.ReplaceAllAppend | src/components/formatText.ts:10 | A single-character global replace distributes over concatenation. |
| FormatText.ReplaceAllAbsent | src/components/formatText.ts:10 | A string without the character is left as it is. |
| FormatText.EscapeChar | src/components/formatText.ts:10-14 | Characters other than `& < > " '` map to themselves. No entity holds `< > " '`. |
| FormatText.EscapeEach | src/components/formatText.ts:9-14 | The per-character escape never outputs `< > " '`. |
| FormatText.EscapeAppend | src/components/formatText.ts:9-14 | The escape step distributes over concatenation. |
| FormatText.EscapeOne | src/components/formatText.ts:10-14 | On one character, the five passes give exactly that character's entity. Because `&` goes first, no entity is escaped again. |
| FormatText.EscapeIsPerChar | src/components/formatText.ts:9-14 | The five sequential passes equal escaping one character at a time. |
| FormatText.EscapeInert | src/components/formatText.ts:9-14 | A string without `& < > " '` is not changed by the escape. |
| FormatText.MatchAt | src/components/formatText.ts:16-21 | The matcher returns the shortest content length that matches, and None when none does. |
| FormatText.WrapsIn | src/components/formatText.ts:16-21 | A pass wraps delimited content in its element and copies the text around it, provided that text holds no delimiter character. |
| FormatText.PlainUnchanged | src/components/formatText.ts:8-23 | A title without `& < > " ' * _ ~` or a backtick comes back unchanged. |
| FormatText.TagsHoldNoSpecials | src/components/formatText.ts:16-21 | The inserted elements hold no quote and no delimiter character. |
| FormatText.EntitiesHoldNoMarkers | src/components/formatText.ts:10-14 | The entities hold no delimiter character. |
| FormatText.ApplyKeepsOut | src/components/formatText.ts:16-21 | The passes output a character outside every element only if it was in their input. |
| FormatText.NoQuotes | src/components/formatText.ts:8-23 | formatText never outputs `"` or `'`. |
| FormatText.StrongStars | src/components/formatText.ts:16 | `**x**` between plain text becomes `<strong>x</strong>`. |
| FormatText.StrongUnderscores | src/components/formatText.ts:17 | `__x__` between plain text becomes `<strong>x</strong>`. |
| FormatText.EmStar | src/components/formatText.ts:18 | A single `*x*` becomes `<em>x</em>`, and the `**` pass finds nothing in it. |
| FormatText.EmUnderscore | src/components/formatText.ts:19 | A single `_x_` becomes `<em>x</em>`, and the `__` pass finds nothing in it. |
| FormatText.Strike | src/components/formatText.ts:20 | `~~x~~` becomes `<del>x</del>`. |
| FormatText.CodeSpan | src/components/formatText.ts:21 | A backtick-quoted x becomes `<code>x</code>`. |
| Tags.AllTags | src/components/tags/getTags.ts:5 | flatMap gives as many tags as the posts carry in total. |
| Tags.InAllTags | src/components/tags/getTags.ts:5 | A string is among all the tags iff some post carries it. An absent list carries nothing. |
| Tags.NotAfterTotal | src/components/tags/getTags.ts:6 | The string order used by sort is total. |
| Tags.NotAfterAntisymmetric | src/components/tags/getTags.ts:6 | The string order is antisymmetric. |
| Tags.NotAfterTransitive | src/components/tags/getTags.ts:6 | The string order is transitive. |
| Tags.Dedup | src/components/tags/getTags.ts:6 | The Set conversion gives each string once and keeps the same members. |
| Tags.Insert | src/components/tags/getTags.ts:6 | Insertion keeps the list sorted and adds exactly one element. |
| Tags.Sort | src/components/tags/getTags.ts:6 | sort returns a sorted permutation of its input. |
| Tags.UniqueTags | src/components/tags/getTags.ts:3-7 | getUniqueTags is sorted and duplicate-free, and holds exactly the tags of the posts. |
| Tags.StrictlyAscending | src/components/tags/getTags.ts:6 | The unique tags are strictly ascending. |
| Tags.UniqueTagsOfPosts | src/components/tags/getTags.ts:5-6 | A string is a unique tag iff some post carries it. |
| Tags.TallyCounts | src/components/tags/getTags.ts:14-20 | The reduce adds each tag's number of occurrences to its count. Keys already counted are kept. |
| Tags.Occurrences | src/components/tags/getTags.ts:10-23 | The keys are exactly the tags used. Each count is the tag's number of occurrences, duplicates within a post included, and at least 1. |
| Tags.KeysAreUniqueTags | src/components/tags/getTags.ts:5-6 | The occurrence keys are exactly the unique tags. |
| Tags.CountsSumToTotal | src/components/tags/getTags.ts:12-20 | The counts, summed over the unique tags, give the total number of tags. |
| NumericReferences.Strings | src/rehype-numeric-references.ts:27-29 | The filter keeps at most as many entries as it is given. |
| NumericReferences.StringsAppend | src/rehype-numeric-references.ts:27-29 | The filter keeps the string entries of a concatenation in order. |
| NumericReferences.Classes | src/rehype-numeric-references.ts:26-34 | A string className becomes a one-element list. A number, a boolean or no className gives no classes. |
| NumericReferences.Mark | src/rehype-numeric-references.ts:10-42 | The step never changes the tag name or the children. A node that is not a link with a `[digits]` first text child is returned unchanged. A matching node always ends up with properties. |
| NumericReferences.MarkedClasses | src/rehype-numeric-references.ts:22-39 | A matching node's className becomes a list of exactly its former classes followed by "numeric-reference", each entry a string, with nothing else in it. Every other property is kept. |
| NumericReferences.ArrayClassName | src/rehype-numeric-references.ts:26-39 | An array className becomes a list of exactly its string entries, in order, followed by the marker. Its other entries are dropped. |
| NumericReferences.StringClassName | src/rehype-numeric-references.ts:30-31 | A string className s becomes [s, "numeric-reference"]. |
| NumericReferences.FreshClassName | src/rehype-numeric-references.ts:22-34 | Missing properties are created. A missing or non-string, non-array className becomes ["numeric-reference"]. |
| NumericReferences.MarkedTwice | src/rehype-numeric-references.ts:36-39 | The step is not idempotent: a second visit appends the marker again. |
| NumericReferences.ReferenceExamples | src/rehype-numeric-references.ts:20 | `[1]` and `[12]` are references. `1`, `[]`, `[a]` and `[1] ` are not. |
| Fonts.FontFileIgnoresCase | src/integrations/fonts.ts:55 | The font-file test ignores letter case. |
| Fonts.FontFileByEnding | src/integrations/fonts.ts:63 | Only the last six characters of a name decide the font-file test. |
| Fonts.UpperCaseExtension | src/integrations/fonts.ts:55 | `Inter.WOFF2` is a font file. |
| Fonts.OtherEndings | src/integrations/fonts.ts:63 | `Inter.woff3`, `woff` and `font.ttf.bak` are not font files. |
| Fonts.PathEnd | src/integrations/fonts.ts:82 | The path run ends at the first `"`, `'` or `)`, or at the end of the text. |
| Fonts.MatchUrl | src/integrations/fonts.ts:82 | A match starts with `url(` and ends with `)`, and its path is a non-empty stretch strictly inside it. MatchIsUrlText states the exact form of a match. |
| Fonts.MatchIsUrlText | src/integrations/fonts.ts:82 | Every match is `url(`, an optional quote, `./`, a path without quotes or `)`, an optional quote and `)`, and the path is the captured group. With MatchesUrlText, the matcher accepts exactly these texts. |
| Fonts.NonRelativeUnmatched | src/integrations/fonts.ts:82 | A url whose path does not begin with `./` is not matched, so transformCss copies it. |
| Fonts.Basename | src/integrations/fonts.ts:84 | The base name holds no `/` and is no longer than the path. |
| Fonts.BasenameIsLast | src/integrations/fonts.ts:84 | The base name is the end of the path, right after its last `/` when there is one. |
| Fonts.Step | src/integrations/fonts.ts:81-90 | Each step of the global replace consumes at least one character. |
| Fonts.MatchesUrlText | src/integrations/fonts.ts:82 | `url(` with an optional quote, `./path`, an optional quote and `)` is matched whatever follows it, and the path is the captured group. |
| Fonts.RewritesOne | src/integrations/fonts.ts:81-90 | The first url expression, after text holding no `url(`, becomes `url("/<outputDir>/<basename>")` when accepted and stays verbatim when rejected. The text before it is copied, and the text after it, whatever it holds, is transformed in turn. |
| Fonts.RewritesBoth | src/integrations/fonts.ts:81-90 | In a `src` line with two url expressions, each is rewritten or kept by its own file name. The text before and between them is copied when it holds no `url(`. |
| Fonts.FormatHintOpensNothing | src/integrations/fonts.ts:82 | The separator ` format('woff2'), ` between two url expressions holds no `url(`. |
| Fonts.RejectedKept | src/integrations/fonts.ts:86-88 | A filter that rejects every name leaves the CSS unchanged. |
| Fonts.NoParenUnchanged | src/integrations/fonts.ts:81-82 | CSS without `(` comes back unchanged. |
| Fonts.TransformSkips | src/integrations/fonts.ts:81-90 | Text at none of whose positions `url(` starts is copied unchanged, and the replace goes on after it. |
| Fonts.AnyAccepted | src/integrations/fonts.ts:109-116 | The loop keeps a block iff some name in it passes the filter. |
| Fonts.MatchesFaceText | src/integrations/fonts.ts:105 | `@font-face`, white space, `{`, a body without `}` and `}` is matched as one block. |
| Fonts.MatchFace | src/integrations/fonts.ts:105 | A match starts with `@font-face`, ends with `}`, and is at least 12 characters long. MatchIsFaceText states the exact form of a match. |
| Fonts.MatchIsFaceText | src/integrations/fonts.ts:105 | Every match is `@font-face`, white space, `{`, a body without `}` and `}`. With MatchesFaceText, the matcher accepts exactly these blocks. |
| Fonts.FilterCssFontFaces | src/integrations/fonts.ts:94-119 | Without a filter the CSS is returned unchanged. With one, the output is never longer. |
| Fonts.FaceSkips | src/integrations/fonts.ts:104-118 | Text at none of whose positions a block starts is copied unchanged, and the scan goes on after it. |
| Fonts.KeepsOrDropsBlock | src/integrations/fonts.ts:104-117 | The first block, after text holding no `@font-face`, is kept verbatim iff some file it names passes the filter, and otherwise removed. The text before it is copied, and the text after it, further blocks included, is filtered in turn. |
| Fonts.NamesOne | src/integrations/fonts.ts:108-111 | After text holding no `url(`, the first url expression's base name is the first name found, followed by the names of the rest. |
| Fonts.NoUrlNoNames | src/integrations/fonts.ts:108-116 | A block without `(` names no file, so the filter drops it. |
| FontsRewrite.NoMatchInRewritten | src/integrations/fonts.ts:82-89 | No url expression starts anywhere inside a rewritten `url("/dir/name")`, whatever follows it. |
| FontsRewrite.NoMatchStays | src/integrations/fonts.ts:82 | Where no expression matched, none matches after a rewritten expression's opening replaces the rest. |
| FontsRewrite.Head | src/integrations/fonts.ts:81-90 | The output agrees with the input up to the first rewritten expression. Without one, the output is the input. |
| FontsRewrite.KeptStep | src/integrations/fonts.ts:86-88 | A rejected expression is kept verbatim, and the text after it is transformed as if it stood alone. |
| FontsRewrite.Idempotent | src/integrations/fonts.ts:81-90 | transformCss run on its own output changes nothing, for an output directory without `(`. |

## Left out

- File-system work and the Astro hooks of the fonts integration are not modelled: directory scanning, copying, and package resolution (`src/integrations/fonts.ts:29-74, 121-225`). Only the font-file test is kept from them.
- The browser scripts, configuration, constants and end-to-end tests are not modelled. They are DOM wiring, static data or browser automation.
- `getCollection` is not modelled, and neither is the `visit` traversal of the rehype plugin. The posts' tag lists and single elements are inputs.
- Strings are sequences of Unicode scalar values, while JavaScript compares and indexes UTF-16 code units.
- Tags.Sort: orders strings by code point, not by UTF-16 code unit. The two orders differ only between characters above U+FFFF and characters in U+E000–U+FFFF.
- Tags.Occurrences: treats every tag as a fresh key. In the source, a tag named after an `Object.prototype` member (`constructor`, `__proto__`) reads an inherited value, which the model does not reproduce.
- Fonts.Basename: is the text after the last `/`. Node's `path.basename` also ignores trailing separators, which is not modelled.
- Fonts.Space: is `\s` by code point. The engine's own character tables are not modelled.
- FormatText.ApplyKeepsOut: the formatter's promise that every `<` or `>` in the output belongs to an inserted element is not stated. Only the quote characters are shown never to appear (NoQuotes).
- NumericReferences.Element: the hast element's children are optional, and the plugin's `node.children &&` check is modelled as that option. Other node kinds than text are one variant, `Other`.
- The as-written builder is not traced on the blog-post test input (`test/components/toc/buildTree.test.ts:145-173`), an eleven-heading trace through the shared children table. The same defect is exhibited on the smaller input [2,3,3,2,3,2] (TocCases.SiblingsMisordered).
- FontsRewrite.Idempotent: requires the output directory to hold no `(`. The default `fonts` satisfies this; with a `(` in it a rewritten expression could be matched again.

## Findings

| source | as written | input that shows it | evidently intended | confidence | as-written member | corrected member |
|---|---|---|---|---|---|---|
| src/components/toc/buildTree.ts:15 | The loop runs only while `next < headings.length`, with `next == offset + 1`. So the last heading is never attached as a child. | depths [2, 3]: two roots, where the test at test/components/toc/buildTree.test.ts:46-54 expects one root with one child. Every input whose last heading is deeper than its predecessor shows the same defect: the tests at lines 56-70 ([2,3,3]), 73-88 ([2,3,4]), 89-105 ([2,3,4,5]) and 267-284 ([2,4] and [3,4]) each expect that last heading as a child. | A heading deeper than the previous one becomes its child, including the last one. | high; not executed | Toc.TwoHeadings | TocReference.NestsLastHeading |
| src/components/toc/buildTree.ts:27 | `next += increment` adds the count accumulated over all iterations, not the size of the subtree just built. The cursor then skips or revisits headings. | depths [2, 3, 3, 2, 3, 2]: heading 3 is dropped and heading 4 is listed twice. | The pre-order listing is the input, each heading once and in order (test/components/toc/buildTree.test.ts:206-263). | high; not executed | TocCases.SiblingsMisordered | TocReference.ListsEveryHeading |
