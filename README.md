# markdown-component-loader, modelled in Dafny

markdown-component-loader turns a Markdown document with YAML front matter
into the source of a React component module. JSX-style expressions
(`{...}` assignments, `style={{...}}` objects, JSX properties on HTML tags)
must survive a Markdown renderer and an HTML-to-JSX step, so the loader:

- hides them behind hash-derived identities with a **string replacement
  cache**, which is loaded before rendering and unloaded afterwards;
- walks the rendered HTML with a **stack-based tag scanner**, which calls a
  callback for each `<name`, `</name`, `/>` and `>` fragment and splices in
  what the callback returns;
- expands self-closing tags and tidies the converter's output;
- in `src/convert.js`, cuts the HTML into tag and text fragments and
  rewrites each one (comments become JSX comments, `class` becomes
  `className`, element-prop spreads are added, text lines that need it are
  wrapped);
- in `src/index.js`, renames tag names that the converter would not keep,
  restores them, and passes element props only to DOM tags.

Both entry points reject reserved static names and order the imports.

The project has one module per source file, plus `Strings` for the
JavaScript string primitives they share:

| module | file | source |
|---|---|---|
| `Strings` | `strings.dfy` | `\s`, `slice`, `split`/`join`, the trailing-blank-line replace |
| `HexToAlpha` | `hex_to_alpha.dfy` | `src/hex-to-alpha.js` |
| `Markup` | `markup.dfy` | well-nested HTML, as both tag scanners meet it |
| `ReplacementCache` | `string_replacement_cache.dfy` | `src/string-replacement-cache.js` |
| `ProcessHtml` | `process_html.dfy` | `src/process-html.js` |
| `HtmlToJsx` | `html_to_jsx.dfy` | `src/html-to-jsx.js` |
| `ModuleHeader` | `module_header.dfy` | configuration, imports and statics, shared by `src/convert.js` and `src/index.js` |
| `Convert` | `convert.dfy` | `src/convert.js` |
| `Loader` | `loader.dfy` | `src/index.js` |

Some parts of the program are not in the model. They are passed in as
function-valued parameters or given sets, and are listed under "Left out":

- the regular expressions of the caches, as a `Matcher` that finds the
  next match from a position;
- the hashes;
- the Markdown renderer;
- `hastml`'s walker, as the sequence of tag records it reports;
- `HTMLtoJSX`;
- `jsesc`;
- the output formatters;
- `VOID_ELEMENTS` and `ReactDOM`.

The tag-scanner patterns are simple enough to be modelled exactly, as
character classifiers.

The cache is a `class` whose table is a field. The two scanners, the
offset-tracked splice loop, the loops that collect spans, tags and cut
points, and the fragment loop are methods with loop invariants. Each is
proved equal to a specification function, and the properties are lemmas
about those functions.

## Model

| member | source | states |
|---|---|---|
| Strings.ClampIndex | src/convert.js:84-90 | How `slice` reads an index: a negative one counts from the end, and the result is clamped to `0..length`. |
| Strings.JsSlice | src/convert.js:201 | `slice(a, b)` is `s[a..b]` for in-range bounds and is never longer than `s`. |
| Strings.Split | src/convert.js:234 | `split('\n')` gives at least one part, and no part contains the separator. |
| Strings.JoinSplit | src/convert.js:234-237 | Joining the split parts with the separator gives the text back. |
| Strings.FirstBlankTail | src/html-to-jsx.js:50 | The leftmost position where a line break followed only by whitespace runs to the end, or none. |
| Strings.TrimTrailingBlank | src/html-to-jsx.js:50 | The result is a prefix of the input, and what is removed starts with a line break followed only by whitespace. |
| Strings.TrimLeavesNoBlankTail | src/html-to-jsx.js:50 | After trimming, no blank tail is left, so trimming twice is trimming once. |
| Strings.TrimKeepsContentEnding | src/html-to-jsx.js:50 | Text that ends in a non-whitespace character is not changed. |
| HexToAlpha.HexValue | src/hex-to-alpha.js:12 | `parseInt(d, 16)` is a digit value below 16 or NaN. |
| HexToAlpha.Wrap | src/hex-to-alpha.js:11-12 | `String.fromCharCode` keeps a code below 2^16 and subtracts 2^16 from one just above. |
| HexToAlpha.Encode | src/hex-to-alpha.js:5-18 | The output has as many characters as the input. |
| HexToAlpha.EncodePointwise | src/hex-to-alpha.js:9-15 | Each output character is the encoding of the input character at the same position. |
| HexToAlpha.EncodeEmpty | src/hex-to-alpha.js:16 | The empty string encodes to the empty string. |
| HexToAlpha.EncodeConcat | src/hex-to-alpha.js:8-16 | Encoding distributes over concatenation. |
| HexToAlpha.DefaultIsAlphabetic | src/hex-to-alpha.js:5-12 | With the default offset `'j'`, every hex digit encodes to a letter in `'j'..'y'`. |
| HexToAlpha.DefaultExamples | src/hex-to-alpha.js:3-5 | `"0"` becomes `"j"` and `"f"` becomes `"y"`. |
| HexToAlpha.EncodeDigitInjective | src/hex-to-alpha.js:12 | Two hex digits with the same encoding have the same value. |
| HexToAlpha.EncodeInjective | src/hex-to-alpha.js:12 | On lower-case hex input, equal encodings come from equal inputs. |
| ReplacementCache.DefaultConfig | src/string-replacement-cache.js:3-6 | With the no-op replacers, the payload is the match and the identity is the hash. |
| ReplacementCache.KeepFirstGroup | src/index.js:77-80 | The assignment caches' output replacer stores the first capture group. |
| ReplacementCache.Put | src/string-replacement-cache.js:27 | Storing an entry sets exactly that key and keeps the table well formed. |
| ReplacementCache.ScanMatched | src/string-replacement-cache.js:15-30 | A match inside the searched range yields the text before it, then its slot, then the pieces of the rest of the search. |
| ReplacementCache.ScanRenders | src/string-replacement-cache.js:15-29 | At a match, load emits the text before it and then the identity in its place. |
| ReplacementCache.ScanRecords | src/string-replacement-cache.js:27 | At a match, load records identity to payload before it goes on. |
| ReplacementCache.ScanStop | src/string-replacement-cache.js:15-30 | When no match is left, the rest is copied and the table is unchanged. |
| ReplacementCache.SlotShape | src/string-replacement-cache.js:16-29 | Every replaced piece is `identityReplacer(hash(match), ...)` with payload `outputReplacer(match, ...)`. |
| ReplacementCache.NoMatchUnchanged | src/string-replacement-cache.js:14-34 | Text with no match loads to itself and adds nothing to the table. |
| ReplacementCache.PayloadsConcat | src/string-replacement-cache.js:14-30 | The text with every match replaced by its payload distributes over the scanned pieces. |
| ReplacementCache.RenderConcat | src/string-replacement-cache.js:14-30 | The loaded text distributes over the scanned pieces. |
| ReplacementCache.ScanPayloads | src/string-replacement-cache.js:3-27 | With the no-op output replacer, putting every payload back gives the original text. |
| ReplacementCache.ContentAddressed | src/string-replacement-cache.js:17-27 | With an injective hash, equal identities carry equal payloads, so an overwrite stores the same value. |
| ReplacementCache.RecordContains | src/string-replacement-cache.js:27 | Loading keeps every earlier key and adds the identity of every match. |
| ReplacementCache.RecordKeeps | src/string-replacement-cache.js:27 | An entry from an earlier load that is not matched again keeps its payload. |
| ReplacementCache.RecordConcat | src/string-replacement-cache.js:27 | Recording two batches of matches one after the other is recording both at once. |
| ReplacementCache.RecordAgrees | src/string-replacement-cache.js:27 | When identities determine payloads, each identity's entry is the payload of its match. |
| ReplacementCache.EscapeIsLiteral | src/string-replacement-cache.js:42-46 | The escaped identity is a pattern that matches exactly the identity, literally. |
| ReplacementCache.NoOccurrenceUnchanged | src/string-replacement-cache.js:39-51 | A global replace of a key that does not occur changes nothing. |
| ReplacementCache.ReplaceAllSkip | src/string-replacement-cache.js:39-51 | A prefix holding no occurrence of the key is copied unchanged by the global replace. |
| ReplacementCache.ReplaceRendered | src/string-replacement-cache.js:39-51 | Replacing one identity everywhere fills in exactly that identity's slots. |
| ReplacementCache.UnloadRendered | src/string-replacement-cache.js:39-51 | Replacing every key in key order fills in the slots of all of them. |
| ReplacementCache.RenderRestored | src/string-replacement-cache.js:39-51 | Once every slot is filled with its own payload, the text is the payloads' text. |
| ReplacementCache.RenderNothingDone | src/string-replacement-cache.js:29 | Before unloading, the loaded text does not depend on the table. |
| ReplacementCache.UnloadGivesPayloads | src/string-replacement-cache.js:14-56 | Unloading what was loaded gives the text with every match replaced by its payload. |
| ReplacementCache.UnloadAfterLoad | src/string-replacement-cache.js:14-56 | With the no-op output replacer, and no identity occurring elsewhere, `unload(load(s)) == s`. |
| ReplacementCache.Expand | src/string-replacement-cache.js:49 | `String.prototype.replace` pattern expansion leaves text without `$` unchanged. |
| ReplacementCache.AsWrittenLiteralWithoutDollar | src/string-replacement-cache.js:40-50 | The replace as written equals a literal global replace when the payload has no `$`. |
| ReplacementCache.UnloadAsWrittenWithoutDollar | src/string-replacement-cache.js:39-51 | The unload as written equals the literal unload when no payload contains `$`. |
| ReplacementCache.UnloadAfterLoadAsWritten | src/string-replacement-cache.js:14-56 | With the no-op output replacer, no identity elsewhere in the text and no `$` in any payload, `unload(load(s)) == s` for the unload as written. |
| ReplacementCache.DollarPayloadCorrupted | src/string-replacement-cache.js:40-50 | The payload `$$` comes back as `$` from the unload as written, and as `$$` from the literal one. |
| ReplacementCache.StringReplacementCache.constructor | src/string-replacement-cache.js:6-12 | A new cache has its configuration and an empty table. `loaded` is unset, hence falsy, until the first load; the model holds it as `false`. |
| ReplacementCache.StringReplacementCache.Load | src/string-replacement-cache.js:14-34 | Returns the loaded text, adds this text's matches to the table, and sets `loaded`. |
| ReplacementCache.StringReplacementCache.Unload | src/string-replacement-cache.js:36-56 | Returns the text with every stored identity replaced, in key order, by its payload read as a `String.prototype.replace` replacement string (`$$`, `$&`, `` $` `` and `$'` are expanded). Empties the table and clears `loaded`. |
| ReplacementCache.RoundTrip | src/string-replacement-cache.js:14-56 | A fresh cache that loads and then unloads gives the text back when no stored payload contains `$`. |
| ProcessHtml.NameEnd | src/process-html.js:5 | A tag name runs over letters, digits, `.` and `-`, and stops at the first other character. |
| ProcessHtml.FragmentAt | src/process-html.js:5 | A recognised fragment is non-empty and lies inside the text. |
| ProcessHtml.FragmentShape | src/process-html.js:5-10 | What each of the four fragment kinds looks like, with its name, and when nothing matches. |
| ProcessHtml.TokensFrom | src/process-html.js:4-6 | Scanning gives a gap followed by matches, each match followed by its gap. |
| ProcessHtml.FlattenConcat | src/process-html.js:4-48 | The text of a token sequence distributes over concatenation. |
| ProcessHtml.TokensCover | src/process-html.js:4-48 | Gaps and matches, concatenated, are the input. |
| ProcessHtml.LeftmostMatch | src/process-html.js:4-6 | A gap contains no fragment, and a match follows it unless the text ends there. |
| ProcessHtml.SetTop | src/process-html.js:27-36 | Only the top record is replaced. |
| ProcessHtml.Advance | src/process-html.js:12-38 | `<name` pushes exactly one open record; every other fragment keeps the depth; an empty stack yields the throwaway record. |
| ProcessHtml.StepStack | src/process-html.js:12-44 | Per fragment, the stack rule holds: `<` pushes, `</` marks closing, `/>` always pops, and below the top nothing changes. With an empty stack, a stray fragment leaves it empty. |
| ProcessHtml.TagEndTransition | src/process-html.js:26-33 | `>` moves an open top to content, pops a closing top, and leaves any other top alone. |
| ProcessHtml.CallbackSees | src/process-html.js:40 | The callback gets the new record for `<`, and the top record before any pop otherwise. |
| ProcessHtml.WalkConcat | src/process-html.js:4-48 | Walking two token runs is walking the second from where the first ends. |
| ProcessHtml.IdentityCallbackKeepsText | src/process-html.js:4-48 | A callback that returns each match leaves the rest of the text unchanged. |
| ProcessHtml.ProcessIdentity | src/process-html.js:4-48 | With a callback that returns each match, the output is the input. |
| ProcessHtml.ForestKeepsStack | src/process-html.js:12-44 | Walking the tokens of well-nested markup (its texts, and for each element `<name`, the attributes, `/>` or `>` body `</name` `>`) returns the stack to where it started. |
| ProcessHtml.ElementKeepsStack | src/process-html.js:12-44 | The tokens of one well-nested element, its body included, return the stack to where it started. |
| ProcessHtml.ItemsKeepStack | src/process-html.js:12-44 | A run of well-nested elements, each followed by its text, returns the stack to where it started. |
| ProcessHtml.FragmentAtShift | src/process-html.js:5 | Whether a fragment starts at a position, and its kind, name and length, do not depend on the text before that position. |
| ProcessHtml.TokensShift | src/process-html.js:4-6 | The global search reads only forward: the tokens from a position in a suffix are the same when that suffix is read inside a longer text. |
| ProcessHtml.GapBefore | src/process-html.js:4-6 | Text without angle brackets, not ending in `/` before a `>`, is one gap before the next match. |
| ProcessHtml.MarkupTokens | src/process-html.js:4-6 | The scanner cuts the text of well-nested markup exactly into its `ForestTokens`: the texts as gaps, and per element `<name`, the attributes, then `/>`, or `>`, the body's tokens, `</name` and `>`. |
| ProcessHtml.WellNestedEmptiesStack | src/process-html.js:1-49 | Whatever the callback, scanning well-nested markup ends with an empty `tree` stack. |
| ProcessHtml.ScanIsWalk | src/process-html.js:4-48 | Scanning from any position gives what the walk over the tokens from that position gives. |
| ProcessHtml.ProcessWalksTokens | src/process-html.js:4-48 | The scanner's result is the walk over the input's gaps and matches, from an empty stack. |
| ProcessHtml.Handle | src/process-html.js:6-47 | One fragment through the `switch`, the callback and the deferred pop gives exactly one step of the walk. |
| ProcessHtml.OpenPushes | src/process-html.js:17-20 | `<name` and its attribute text push one open record and leave the records below alone. |
| ProcessHtml.VoidClosePops | src/process-html.js:22-44 | `/>` pops the record on top. |
| ProcessHtml.CloseTagPops | src/process-html.js:26-44 | `</name` then `>` marks the top record closing and pops it. |
| ProcessHtml.ProcessHtml | src/process-html.js:1-49 | The scanning loop with its `tree` stack computes the scanner's output and the callback's final state. |
| ProcessHtml.SearchStep | src/process-html.js:4-47 | One step of the search moves forward and leaves the rest of the scan's result unchanged. |
| ProcessHtml.TakeMatch | src/process-html.js:6-47 | Taking the match at a position copies the gap before it, handles the fragment and resumes the scan after it with the same final result. |
| HtmlToJsx.TagNameEnd | src/html-to-jsx.js:7 | A name recognised by `prepareHtml` is a run of letters and dots. |
| HtmlToJsx.HitAt | src/html-to-jsx.js:7 | A recognised fragment is non-empty and lies inside the text. |
| HtmlToJsx.HitShape | src/html-to-jsx.js:7-12 | Opening names are non-empty runs of letters and dots. `/>` is recognised exactly where it occurs. |
| HtmlToJsx.PartsFrom | src/html-to-jsx.js:6-30 | Splitting into plain text and fragments gives at least one part. |
| HtmlToJsx.JoinedConcat | src/html-to-jsx.js:6-30 | The text of a part sequence distributes over concatenation. |
| HtmlToJsx.PartsCover | src/html-to-jsx.js:6-30 | The parts, concatenated, are the input. |
| HtmlToJsx.PartsShift | src/html-to-jsx.js:6-7 | The global search reads only forward: the parts from a position in a suffix are the same when that suffix is read inside a longer text. |
| HtmlToJsx.PlainBefore | src/html-to-jsx.js:6-7 | Text without angle brackets, not ending in `/` before a `>`, is one plain part before the next match. |
| HtmlToJsx.MarkupParts | src/html-to-jsx.js:6-8 | The search cuts the text of well-nested markup exactly into its `ForestParts`: the texts as plain parts, and per element `<name`, the attributes, then `/>`, or `>`, the body's parts, `</`, the name and `>`. |
| HtmlToJsx.PrepareHtml | src/html-to-jsx.js:3-31 | The replace loop with its name stack computes `prepareHtml`. |
| HtmlToJsx.PrepareConcat | src/html-to-jsx.js:14-26 | Preparing two part runs is preparing the second from where the first ends. |
| HtmlToJsx.OnlySelfClosingChanges | src/html-to-jsx.js:14-28 | Without `/>`, plain text and every fragment are copied unchanged. |
| HtmlToJsx.SelfClosingFromSlash | src/html-to-jsx.js:7 | Text with no `/>` produces no self-closing fragment. |
| HtmlToJsx.PrepareWithoutSelfClosing | src/html-to-jsx.js:3-31 | `prepareHtml` leaves text without `/>` unchanged. |
| HtmlToJsx.PrepareExpandsSelfClosing | src/html-to-jsx.js:3-31 | On well-nested markup, `prepareHtml` gives the markup with every self-closing element written out as `<name attrs></name>`, and changes nothing else. |
| HtmlToJsx.NameCutAtDigit | src/html-to-jsx.js:7-19 | A name with a digit is cut at the digit: `<h1/>` becomes `<h1></h>`. |
| HtmlToJsx.OpenExpands | src/html-to-jsx.js:15-17 | `<name` is copied and pushes the name. |
| HtmlToJsx.CloseExpands | src/html-to-jsx.js:21-25 | `</name>` is copied and pops the name. |
| HtmlToJsx.ItemsExpand | src/html-to-jsx.js:14-28 | A run of well-nested elements and their texts is written out expanded and leaves the name stack unchanged. |
| HtmlToJsx.ElementExpands | src/html-to-jsx.js:14-28 | One well-nested element is written out expanded and leaves the name stack unchanged. |
| HtmlToJsx.PairedExpands | src/html-to-jsx.js:14-28 | A paired element pushes its name at `<name`, expands its body and pops the name at `</`. |
| HtmlToJsx.ForestExpands | src/html-to-jsx.js:14-28 | The parts of well-nested markup append its expansion, every `/>` as `></name>` with its own element's name, and leave the name stack unchanged. |
| HtmlToJsx.ReindentCopies | src/html-to-jsx.js:49 | Text before the first line break is not touched by the re-indent. |
| HtmlToJsx.ReindentLine | src/html-to-jsx.js:49 | A line break followed by eight spaces becomes a line break followed by `indent`. |
| HtmlToJsx.HtmlToJsx | src/html-to-jsx.js:33-51 | The result has no trailing line break followed only by whitespace. |
| ModuleHeader.Configure | src/index.js:18-37 | Missing options default to `implicitlyImportReact` true and `passElementProps` false; given options win. |
| ModuleHeader.ImportList | src/convert.js:24-40 | React then PropTypes come first unless turned off, then one import per front-matter entry in key order. |
| ModuleHeader.CollectImports | src/index.js:40-56 | The `push` calls build exactly that list. |
| ModuleHeader.Reserved | src/convert.js:23-45 | `propTypes` is always reserved, and `defaultProps` is reserved exactly when element props are passed. |
| ModuleHeader.FirstReserved | src/convert.js:48-51 | Finds the first static in key order whose name is reserved. |
| ModuleHeader.FormatStatics | src/convert.js:48-54 | Succeeds exactly when no name is reserved, with every static formatted in order. Otherwise it fails with the message for the first reserved name. |
| ModuleHeader.PropTypesRefused | src/index.js:39-67 | A `propTypes` static is always refused with the "That name is reserved." message. |
| ModuleHeader.DefaultPropsRefusedIff | src/index.js:58-67 | A `defaultProps` static is refused exactly when element props are passed. |
| ModuleHeader.OtherNamesAccepted | src/convert.js:48-54 | Statics with other names are never refused. |
| ModuleHeader.Concat | src/convert.js:252-253 | `join('')` of a single part is that part. |
| Convert.SpanOf | src/convert.js:62-71 | A span is contributed exactly when `closeIndex` is set. It is `[openIndex, contentIndex]`, or `[openIndex, closeIndex]` without a content index. |
| Convert.Pushed | src/convert.js:64-71 | One callback pushes at most one span. |
| Convert.Spans | src/convert.js:60-73 | There are at most as many spans as callbacks. |
| Convert.SpansConcat | src/convert.js:60-73 | Spans of two runs of callbacks are the spans of each, in order. |
| Convert.CollectSpans | src/convert.js:57-73 | The walker callback's `push` calls build exactly the spans. |
| Convert.SpliceKeepsWellFormed | src/convert.js:83-93 | The whole splice loop keeps the cache table well formed. |
| Convert.SpliceSpan | src/convert.js:84-92 | One pass of the loop body leaves the text, the offset and the cache table that one splice step gives. |
| Convert.ProtectProperties | src/convert.js:75-93 | The loop with its running offset produces the spliced text, and the cache holds exactly the table the splices record. |
| Convert.SpliceStepInPlace | src/convert.js:84-92 | When the offset matches the text, one splice loads exactly its span and moves the offset by the length change. |
| Convert.SpliceOrdered | src/convert.js:75-93 | For ascending, non-overlapping spans, each span is loaded in place and other text is kept. The offset stays the total length change so far. |
| Convert.ProtectOrderedSpans | src/convert.js:75-93 | From offset 0, ascending non-overlapping spans are protected exactly and in place. |
| Convert.CloseOrderSplice | src/convert.js:64-93 | Spans `[2,4]` then `[0,2]` of `abcd`, in that order, splice to `abbh`. |
| Convert.AscendingOrderProtects | src/convert.js:75-93 | The same spans in ascending order give `hh`. |
| Convert.CloseOrderMisplaces | src/convert.js:64-93 | Spans that are not ascending put a loaded tag in the wrong place. |
| Convert.WholeTextLoad | src/string-replacement-cache.js:14-30 | With a cache matching the whole text, a two-character text loads to its identity `h`. |
| Convert.Distinct | src/convert.js:154-163 | `indexOf` de-duplication keeps records that were visited, and no record twice. |
| Convert.DistinctKeepsFirst | src/convert.js:159-161 | The first visit of every record is kept. |
| Convert.CollectTags | src/convert.js:154-163 | The walker callback's `indexOf`/`push` builds exactly the de-duplicated records. |
| Convert.TagCuts | src/convert.js:168-193 | Each record contributes its `openIndex` first, then the content, closing and close offsets. |
| Convert.AllCutsConcat | src/convert.js:167-194 | Cut points of two record runs are the cut points of each, in order. |
| Convert.PushCuts | src/convert.js:168-193 | The `push` calls for one record append exactly its cut points. |
| Convert.CollectOffsets | src/convert.js:165-194 | The offsets are `0` followed by every record's cut points. |
| Convert.Insert | src/convert.js:197 | Inserting into an ascending list keeps it ascending and is a permutation plus the element. |
| Convert.Sort | src/convert.js:197 | The numeric sort is ascending and a permutation of its input. |
| Convert.DropRepeats | src/convert.js:198 | The filter keeps the first and last offsets and the same set of values, and makes an ascending list strictly ascending. |
| Convert.Segments | src/convert.js:199-204 | There is one fragment per cut point. |
| Convert.SegmentsCover | src/convert.js:199-204 | The fragments of ascending cut points concatenate to the HTML from the first cut on. |
| Convert.FragmentsRebuildHtml | src/convert.js:165-204 | Cut points starting at 0, sorted and de-duplicated, give fragments that concatenate to exactly the HTML. |
| Convert.FirstClassAt | src/convert.js:219 | Finds the first whitespace character followed by `class=`. |
| Convert.RenameClass | src/convert.js:219 | The first ` class=` becomes ` className=` and everything else is kept; without one, nothing changes. |
| Convert.SpaceEnd | src/convert.js:226 | The end of a whitespace run. |
| Convert.FirstTagCloseAt | src/convert.js:226 | Finds the first `\s*\/?>`. |
| Convert.SearchSpace | src/convert.js:223 | `search(/[\s\n]/)` is -1 or the first whitespace position. |
| Convert.InsertSpread | src/convert.js:222-228 | The spread for the escaped tag name goes in just before the first `>` or `/>` and its leading whitespace. Without one, nothing changes. |
| Convert.WrapEach | src/convert.js:234-237 | Every text line is rewritten on its own. |
| Convert.WrappedIff | src/convert.js:236 | A line is wrapped as `{escaped}` exactly when it starts or ends with whitespace or holds a brace. |
| Convert.CommentBecomesJsx | src/convert.js:209-215 | A comment without the assignment prefix becomes `{/*...*/}`. |
| Convert.AssignmentCommentKept | src/convert.js:209-215 | A comment with the `[mcl-assignment]:` prefix passes through unchanged. |
| Convert.AssignmentIdentityKept | src/convert.js:95-99 | Every assignment identity is a comment that the fragment rewrite keeps. |
| Convert.ClosingTagKept | src/convert.js:216-217 | A closing tag fragment passes through unchanged. |
| Convert.NotComment | src/convert.js:209 | A fragment whose second character is not `!` is not a comment. |
| Convert.OpeningTagWithoutProps | src/convert.js:217-219 | Without element props, an opening tag only has its class renamed. |
| Convert.OpeningTagWithProps | src/convert.js:217-229 | With element props, an opening tag has its class renamed and the spread inserted. |
| Convert.PlainTextKept | src/convert.js:232-237 | A text fragment none of whose lines needs wrapping is unchanged. |
| Convert.IndentNewlines | src/convert.js:244 | Text without line breaks is not re-indented. |
| Convert.IndentLines | src/convert.js:244 | Every line break gains ten spaces: the re-indent is a split on line breaks and a join with the new separator. |
| Convert.Tidy | src/convert.js:244-245 | The result has no trailing line break followed only by whitespace. |
| Convert.RenderOrPlaceholder | src/convert.js:151 | The rendered HTML is never empty: the placeholder comment stands in for empty output. |
| Convert.RewriteFragments | src/convert.js:205-243 | The `map`/`join` over fragments builds exactly the rewritten text. |
| Convert.ConvertSource | src/convert.js:20-256 | Fails exactly when a static name is reserved, with the error for the first such name. Otherwise it returns the module built from the imports, the statics and the converted JSX. The property cache is loaded first and unloaded last. Both unloads read payloads as replacement strings, as `unload` does. |
| Loader.Original | src/index.js:170 | `tagCache[name] \|\| name`: the cached original when present and non-empty, else the name. |
| Loader.OpeningRenamed | src/index.js:136-144 | A name with `.` or an upper-case letter is replaced by its hash, which is recorded in the cache. Other names are kept and the cache is unchanged. |
| Loader.SelfClosingExpansion | src/index.js:145-150 | `/>` becomes `></name>` unless the original name is a void element, in which case it is kept. |
| Loader.ClosingUsesTop | src/index.js:151-152 | A closing fragment is re-emitted with the name of the record on top of the stack. |
| Loader.FirstPassState | src/index.js:130-157 | The first pass's tag cache is exactly the renames of the opening tags it met. |
| Loader.RenamesKeep | src/index.js:141 | With an injective hash, a recorded rename is never overwritten with another name. |
| Loader.RenamesRecord | src/index.js:139-142 | Every renamed opening tag ends up in the cache. |
| Loader.FirstPassRemembers | src/index.js:130-157 | After the first pass, the cache maps the hash of every renamed tag back to its original name. |
| Loader.RestoreUndoesRename | src/index.js:170 | Rename then restore is the identity on tag names. |
| Loader.OpeningRestored | src/index.js:173-178 | An opening tag gets its restored name, and the `elementProps` spread exactly when props are passed and the name is a DOM tag. |
| Loader.RenamedTagRestored | src/index.js:136-178 | A tag renamed in the first pass is written with its original name in the second. |
| Loader.FirstDoubleSpaceBrace | src/index.js:188 | Finds the first two whitespace characters followed by `{`. |
| Loader.CollapseSpreadSpace | src/index.js:188 | Only the first such pair becomes a single space, and everything else is kept. |
| Loader.ReverseOrderRestores | src/index.js:82-165 | Loading style then assignment and unloading in the reverse order, with `unload` as written, gives the text back when no payload contains `$`. |
| Loader.Load | src/index.js:32-196 | Fails exactly when a static name is reserved. Otherwise it returns the module built from the imports, the statics and the loader's JSX: style cache then assignment cache, first pass, conversion, unloading in reverse (payloads read as replacement strings), second pass, space collapse. |

## Left out

- Webpack glue (`getLoaderConfig`, `cacheable`) and all I/O are left out. The configuration is a parameter.
- markdown-it and its plugins, highlight.js (with its fallbacks) and `src/jsx-friendly-markdown-it.js` are foreign code. The renderer is a `string -> string` parameter. The highlighter's post-processing of assignment comments is part of it.
- front-matter parsing is foreign. Its result is a `FrontMatter` value: the body, the `imports` map and the other attributes, in key order.
- `hastml`'s walker is foreign. Its callbacks are a sequence of `Visit`s: the record handed over, as it was then and as it is at the end. A record without an `openIndex` is not modelled; `openIndex` is always a number.
- `HTMLtoJSX` is foreign, including its `level === 1` wrapper removal. It is a `string -> string` parameter.
- SHA-256, `any-base`, `lowercaseHash` and `jsesc` are foreign. They are function parameters, and hashing is assumed injective only where a lemma says so.
- The formatters (`formatImport`, `formatStatic`, `formatModule`) are template text. They are function parameters.
- The cache regexes are abstract matchers. A matcher is assumed to give a match that lies inside the text from the search position. An ill-formed match ends the scan instead of reaching JavaScript's exact behaviour.
- Callbacks and replacers get the match and its capture groups only. The offset and whole-string arguments of `String.prototype.replace` are not passed.
- Convert.InsertSpread: the spread of `src/convert.js:225-228` is passed to `String.prototype.replace` as a replacement string, so a `$` in the escaped tag name would be read as a pattern. The model inserts the escaped name literally.
- `Object.keys` puts integer-like keys first. The model keeps the table's keys in insertion order.
- A tag called `constructor` (or another `Object.prototype` name) would find an inherited property in `tagCache` and `ReactDOM`. The model treats them as plain maps and sets.
- Strings are sequences of characters. UTF-16 surrogate pairs are not modelled, except in `HexToAlpha`, which works on 16-bit code units as the source does.
- The `typographer` option and `markdownItPlugins` belong to the renderer.
- Convert.ProtectOrderedSpans: stated only for ascending, non-overlapping spans. The walker reports spans in the order tags close, which for nested tags is not ascending. `Convert.CloseOrderMisplaces` shows the effect.
- Loader.ReverseOrderRestores: stated for caches whose payload is the match. The loader's assignment cache stores the first capture group, so for it the round trip gives the text with each `{...}` replaced by its inner group (see `ReplacementCache.UnloadGivesPayloads`).
- ReplacementCache.RoundTrip: stated only when no stored payload contains `$`, because `unload` reads payloads as replacement strings. `ReplacementCache.DollarPayloadCorrupted` shows what happens otherwise.
- Loader.ReverseOrderRestores: also needs `$`-free payloads in both caches, for the same reason.
- ProcessHtml.MarkupTokens: stated for markup whose names start with a letter and run over letters, digits, `.` and `-`, whose attribute texts start with no name character and end in no `/`, and whose texts hold no `<` or `>`. `ProcessHtml.WellNestedEmptiesStack` has the same condition.
- HtmlToJsx.PrepareExpandsSelfClosing: stated for names made of letters and dots only, and for texts and attributes as above. A name with a digit or `-` is cut short, as `HtmlToJsx.NameCutAtDigit` shows.
- ReplacementCache.UnloadAfterLoad: needs no identity to occur in the text outside the matches, and needs identities to determine payloads (`Consistent`). Both hold when the hash is injective and collision-free with the text, which the source assumes.

## Findings

| source | as written | input that shows it | evidently intended | confidence | as-written member | corrected member |
|---|---|---|---|---|---|---|
| src/string-replacement-cache.js:40-50 | The payload is passed to `String.prototype.replace` as a replacement string, so `$$`, `$&` and the like in it are expanded. | A cache whose pattern matches the payload `$$`. Unloading gives back `$`. | The payload is restored literally, so `unload(load(s)) == s`. | not executed | ReplacementCache.DollarPayloadCorrupted | ReplacementCache.UnloadAfterLoad |
