# LinguistAI grammar highlighting, modelled in Dafny

LinguistAI is a browser extension that marks grammar and spelling mistakes in text fields. This
project models the part of it that turns a piece of text into corrections and shows them:

- `checkGrammar` (`extension/api.js`) is the stand-in correction source. It runs ten fixed
  rules over the text with a global `exec` loop per rule and turns every match into a correction
  record `{original, suggestion, explanation, startIndex, endIndex}`. When no rule matches, it
  offers to capitalise the first word.
- For a textarea (`extension/content.js`):
  - the mirror overlay is rebuilt from the value and the corrections sorted by start;
  - accepting a suggestion splices it into the value.
- For a contenteditable element (`extension/content.js`):
  - old marker spans are unwrapped;
  - the text is checked;
  - the corrections are taken from the last start to the first;
  - each is located in the current text nodes by a character-offset walk and wrapped in a new
    marker with `Range.surroundContents`, which may throw (the exception is caught).

A marker is described by where its text starts in the element's text and what that text is.
The proofs about the contenteditable pass are stated over these placed markers, as a multiset.

Modules, one file each:

| file | module | what it holds |
|---|---|---|
| `options.dfy` | `Options` | `Option` |
| `seqs.dfy` | `Seqs` | generic sequence facts used by the proofs |
| `jstext.dfy` | `JsText` | the `\w`/`\s`/`\b` classes, ASCII case mapping, `slice`, `trim`, text of a node list |
| `corrections.dfy` | `Corrections` | the correction record and the stable sort by start offset |
| `grammar.dfy` | `Grammar` | the rule list, the matcher, the `exec` loop and `checkGrammar` |
| `splice.dfy` | `TextareaSplice` | accepting a textarea suggestion; the `Textarea` class |
| `mirror.dfy` | `Mirror` | the textarea mirror's parts |
| `offsetindex.dfy` | `OffsetIndex` | `getRangeAtOffsets` over the text nodes |
| `markers.dfy` | `Markers` | the node tree, `surroundContents` and the marker passes; the `Editable` class |

The JavaScript string and regular expression semantics used:

- Without the `u` flag, `\w` and `\b` are ASCII.
- `\s` and `trim` share one whitespace set.
- The `i` flag never maps a non-ASCII character onto an ASCII one, so an ASCII
  case-insensitive comparison is exact for the rule literals.
- Every rule literal begins and ends with a word character, so the greedy `\s+` and `(\w+)`
  never give characters back, and a match at a given position is unique.
- `slice` clamps its arguments, and negative ones count from the end.
- `Array.prototype.sort` is stable, and a stable sort has exactly one result, which the model
  computes by insertion.

## Model

| member | source | states |
|---|---|---|
| JsText.LowerAscii | extension/api.js:60 | `toLowerCase()` keeps the length and lower-cases each character on its own (ASCII letters only; see "Left out") |
| JsText.Slice | extension/content.js:273 | for indices within the string, `slice` gives exactly the substring between them; the result is never longer than the string |
| JsText.TrimStrips | extension/api.js:53 | `trim()` is the text with a `\s` prefix and a `\s` suffix removed: it is the substring right after the leading `\s` run, everything after it is `\s`, and when non-empty it neither starts nor ends with `\s` |
| JsText.TrimEmptyIff | extension/api.js:53 | `text.trim()` is non-empty exactly when the text holds a character outside `\s`, in both directions |
| Corrections.SortByStart | extension/content.js:293 | the sorted list is in start order (ascending or descending as the comparator asks), is a permutation of the input and has its length |
| Corrections.SortOfSortedIsIdentity | extension/content.js:293 | a list already in the requested order comes back unchanged (the sort is stable) |
| Corrections.SeparateTail | extension/content.js:295 | when no two corrections overlap and none occurs twice, the first is disjoint from every later one and the later ones keep that property |
| Grammar.RulesAreValid | extension/api.js:25-36 | every pattern of the ten rules is in the shape the matcher handles exactly |
| Grammar.MatchTokens | extension/api.js:41 | when the tokens match from a position, the match starts on a word character, ends later within the text at a word boundary (`\b`), and has a capture group exactly when the pattern holds `(\w+)`; the group is a non-empty run of word characters |
| Grammar.MatchAt | extension/api.js:41 | a match found at a position starts there on a word character, ends later within the text, and its capture group is made of word characters |
| Grammar.NextMatch | extension/api.js:41 | `exec` from `lastIndex` returns a non-empty match that starts at or after `lastIndex` and lies within the text |
| Grammar.NextMatchIsLeftmost | extension/api.js:41 | the result of `exec` is the match at its own start, and the pattern matches nowhere between `lastIndex` and that start |
| Grammar.NoNextMatch | extension/api.js:41 | when `exec` returns `null`, the pattern matches at no position from `lastIndex` on |
| Grammar.AllMatches | extension/api.js:41-49 | the matches the loop collects lie in the text in ascending order, each starting at or after the end of the one before |
| Grammar.AllMatchesOrdered | extension/api.js:41-49 | any two collected matches do not overlap, and the earlier one ends before the later one starts |
| Grammar.AllMatchesComplete | extension/api.js:41-49 | every position where the pattern matches lies inside one of the collected matches: the loop misses no match that does not overlap an earlier one |
| Grammar.ReplaceAtFirstDollarOne | extension/api.js:44 | `replace('$1', x)` substitutes `x` at the first `$1` and keeps everything before and after it |
| Grammar.ReplaceWithoutDollarOne | extension/api.js:44 | a suggestion without `$1` is left as it is |
| Grammar.SuggestionFor | extension/api.js:44 | a suggestion without `$1` is used as it is; otherwise its first `$1` is replaced by capture group 1, or by nothing when the group is absent, and the rest is kept |
| Grammar.CorrectionFor | extension/api.js:42-48 | the record of a match starts at `match.index`, ends at the match's end, holds the matched text as `original` and the rule's explanation, and describes the text it replaces whenever the match is non-empty |
| Grammar.CorrectionsFromMatches | extension/api.js:41-48 | one rule gives one correction per collected match, in the same order, built from that match |
| Grammar.RuleCorrectionsInText | extension/api.js:42-48 | every correction of a rule has offsets in bounds, a non-empty span, and `original` equal to the text between its offsets |
| Grammar.RulesCorrectionsInText | extension/api.js:38-50 | the same holds for every correction of the whole rule list |
| Grammar.NoRuleCorrectionsInBlankText | extension/api.js:25-50 | text made only of `\s` characters gets no rule correction |
| Grammar.MatchFirstWord | extension/api.js:54 | `/^\s*(\S+)/` matches exactly when the text has a non-`\s` character; the match is at index 0, group 1 is the first word, and `match[0]` is the leading whitespace followed by that word |
| Grammar.FirstWordMatch | extension/api.js:54-63 | the offsets computed from `match.index`, `match[0]` and `match[1]` are where the first word starts and ends |
| Grammar.FirstWord | extension/api.js:54-56 | the first word starts right after the leading `\s` run, contains no `\s`, is followed by `\s` or the end of the text, and is non-empty when the text is not blank |
| Grammar.Capitalized | extension/api.js:60 | the suggestion has the word's length, its first character upper-cased and the rest lower-cased |
| Grammar.CheckedSpec | extension/api.js:18-70 | every correction describes the text it replaces; rule corrections are returned whenever there are any; otherwise there is a correction exactly when the first word is longer than three characters, and it is the single capitalisation of that word at its offsets with the fixed explanation; blank text gets nothing |
| Grammar.CollectRuleCorrections | extension/api.js:39-49 | the `exec` loop of one rule yields that rule's corrections |
| Grammar.ApplyRules | extension/api.js:38-50 | `forEach` over the rules yields each rule's corrections in rule order |
| Grammar.CheckWithRules | extension/api.js:21-69 | the rule pass followed by the first-word fallback yields the specified result |
| Grammar.CheckGrammar | extension/api.js:18-70 | the result is the specified one for the ten rules; every correction describes the text it replaces; blank text gets none |
| TextareaSplice.Splice | extension/content.js:273 | for a range within the value, the new value is the text before it, the suggestion, and the text after it |
| TextareaSplice.SpliceLayout | extension/content.js:273 | the prefix is kept, the suggestion occupies `[start, start + its length)`, the suffix follows, and the length changes by the difference |
| TextareaSplice.SpliceRoundTrip | extension/content.js:271-274 | splicing the replaced text back over the suggestion restores the original value |
| TextareaSplice.SpliceKeepsPieceBefore | extension/content.js:273 | text that ends before the accepted range keeps its offsets |
| TextareaSplice.SpliceShiftsPieceAfter | extension/content.js:273 | text that starts after the accepted range moves by the change in length |
| TextareaSplice.SpliceKeepsDisjointCorrections | extension/content.js:271-274 | a correction that does not overlap the accepted one still describes the same text once its offsets are shifted |
| TextareaSplice.Textarea.AcceptCorrection | extension/content.js:271-274 | the textarea's new value is the splice of the old one |
| Mirror.PiecesShowText | extension/content.js:225-231 | over non-overlapping corrections in order, the gaps and markers pushed by the loop show exactly the text from `lastEnd` to the last correction's end |
| Mirror.PiecesGapsNonEmpty | extension/content.js:226-227 | over non-overlapping corrections in order, no gap pushed by the loop is empty |
| Mirror.PiecesMarks | extension/content.js:229 | the loop pushes one marker per correction, in the order given |
| Mirror.SortedMirrorShowsText | extension/content.js:221-235 | over non-overlapping sorted corrections within the value, the mirror shows the value exactly |
| Mirror.SortedMirrorMarks | extension/content.js:225-231 | the mirror's markers are the sorted corrections, each once and in order |
| Mirror.SortedMirrorGapsNonEmpty | extension/content.js:225-234 | over non-overlapping sorted corrections, no gap of the mirror is empty |
| Mirror.MirrorShowsText | extension/content.js:214-236 | with no corrections, or with corrections that do not overlap once sorted, the mirror shows the value exactly; its markers are the sorted corrections; none of its gaps is empty |
| Mirror.NestedCorrectionRepeatsText | extension/content.js:230 | because `lastEnd` is overwritten rather than maximised, a correction nested inside an earlier one makes the mirror show part of the value twice (value `abcdef`, corrections `[0,4)` and `[1,2)`, mirror text `abcdbcdef`) |
| Mirror.UpdateTextareaMirror | extension/content.js:214-236 | the parts assigned to the mirror are the specified mirror content; with no corrections they are the whole value; with non-overlapping corrections they show the value exactly |
| OffsetIndex.BeforeMonotone | extension/content.js:319-333 | the walk's running count never decreases |
| OffsetIndex.RangeTextIsSlice | extension/content.js:299-300 | the range from `(startNode, startOffset)` to `(endNode, endOffset)` lies within the text and covers exactly the flat text between the two global offsets |
| OffsetIndex.LeafOffsets | extension/content.js:324-330 | for a range inside the text, the start node comes no later than the end node, the start offset is inside the start node and the end offset is inside or at the end of the end node |
| OffsetIndex.WalkStoppedResult | extension/content.js:331-335 | wherever the walk stops, the returned object is the walk's result: the end node, or the start node when there is none, with the matching offset |
| OffsetIndex.WalkResultInside | extension/content.js:317-336 | for `0 <= startIdx < endIdx <= text length`, both nodes are found in order; the offsets are in bounds, point at the two global offsets, and cover exactly that text |
| OffsetIndex.WalkResultPastEnd | extension/content.js:324-327 | a start at or past the end of the text finds no start node |
| OffsetIndex.WalkResultEndPastText | extension/content.js:335 | when only the end lies past the text, the end collapses onto the start point |
| OffsetIndex.FirstEndingAfter | extension/content.js:324 | the first node from a given one whose end lies beyond an offset: every node before it ends at or before the offset |
| OffsetIndex.FirstReaching | extension/content.js:328 | the first node from a given one whose end reaches an offset: every node before it ends before the offset |
| OffsetIndex.WalkIsWalkResult | extension/content.js:317-336 | the closed form of the walk (first node ending after `startIdx`, first node reaching `endIdx`, and the fallbacks of the return statement) meets the walk's description |
| OffsetIndex.WalkResultIsWalk | extension/content.js:317-336 | anything that meets the walk's description is the closed form |
| OffsetIndex.WalkResultUnique | extension/content.js:317-336 | the walk's description determines the returned object: two results that meet it are equal |
| OffsetIndex.GetRangeAtOffsets | extension/content.js:317-336 | the loop returns the walk's result, which is the closed form: the first node whose end passes `startIdx`, the first whose end reaches `endIdx`, and the fallbacks of the return statement |
| Markers.UnwrapKeepsLeaves | extension/content.js:34-37 | moving a marker's children out in front of it and removing it keeps the text nodes and removes one marker |
| Markers.ExpandedOfUnmarked | extension/content.js:285-289 | unwrapping content without markers changes nothing |
| Markers.ExpandedUnmarked | extension/content.js:285-289 | no marker survives the unwrapping |
| Markers.ExpandedKeepsText | extension/content.js:285-289 | the unwrapping keeps `textContent`: the only nodes it adds are empty text nodes |
| Markers.UnwrapExpands | extension/content.js:287-288 | unwrapping one marker into its children and an empty text node does not change the final unwrapped content |
| Markers.MarkedAppend | extension/content.js:307 | the markers of two node lists side by side are those of the first, then those of the second placed after the first one's text |
| Markers.KeptWithinHolds | extension/content.js:307 | within one text node, the new marker holds the range's text and no marker |
| Markers.WrapWithinText | extension/content.js:307 | splitting a text node around the new marker keeps the element's text |
| Markers.WrapWithinMarks | extension/content.js:307 | splitting a text node around the new marker adds one marker, placed where the range starts and holding the range's text; the markers before and after keep their places |
| Markers.KeptAcrossHolds | extension/content.js:307 | across two text nodes, the new marker holds the start node's tail, the nodes between and the end node's head |
| Markers.WrapAcrossText | extension/content.js:307 | wrapping across two text nodes keeps the element's text |
| Markers.WrapAcrossMarks | extension/content.js:307 | wrapping across two text nodes adds one marker, placed where the range starts and holding the range's text; the markers between move inside it and keep their places, as do the others |
| Markers.MarkedAroundMarker | extension/content.js:307 | a marker among other nodes is placed where its text starts, before the markers it holds |
| Markers.NestedWrap | extension/content.js:307 | what the wrap does among a marker's children, it does to the whole element, with the new marker placed in the element's text |
| Markers.WithinWrapAt | extension/content.js:307 | both points in one text node: the wrap keeps the text and adds exactly one marker, at the range's start offset and holding the range's text; every other marker keeps its place and text |
| Markers.AcrossWrapAt | extension/content.js:307 | the points in two text nodes of the same list: the wrap keeps the text and adds exactly one marker, at the range's start offset and holding the range's text; every other marker keeps its place and text |
| Markers.NestedWrapAt | extension/content.js:307 | both points inside the same marker: a wrap among its children is a wrap of the element |
| Markers.WrapInText | extension/content.js:306-308 | `surroundContents` within one text node keeps the text |
| Markers.WrapAcrossTexts | extension/content.js:306-308 | `surroundContents` across two text nodes keeps the text |
| Markers.WrapInMarker | extension/content.js:306-308 | `surroundContents` inside a marker, when it succeeds, keeps the text |
| Markers.Surround | extension/content.js:306-308 | `surroundContents`, when it does not throw, keeps the element's text |
| Markers.SurroundWraps | extension/content.js:306-308 | whenever `surroundContents` succeeds, it adds exactly one marker, starting at the range's start offset in the element's text and holding exactly the text the range covers; every other marker keeps its place and its text |
| Markers.WrapInMarkerWraps | extension/content.js:306-308 | both points inside one marker: a successful wrap among its children places the new marker in the whole element |
| Markers.SurroundUnmarked | extension/content.js:306-308 | on content without markers `surroundContents` never throws |
| Markers.LocateMonotone | extension/content.js:322-333 | a later text node lies in the same top-level node or a later one |
| Markers.LeafInMarker | extension/content.js:306-308 | a text node inside a marker lies within that marker's placed text |
| Markers.HighlightsPermutation | extension/content.js:293 | reordering the corrections reorders the markers they ask for the same way |
| Markers.HighlightResult | extension/content.js:295-308 | one correction tried: the text never changes, and either the content is left as it was or it gets exactly one marker more, at the correction's `startIndex` and holding its `original`, with every other marker kept in place |
| Markers.HighlightWhenClear | extension/content.js:296-308 | a correction that overlaps no existing marker always gets its marker, at `startIndex` and holding `original` |
| Markers.ClearPointsInTexts | extension/content.js:296-307 | neither boundary point of a correction that overlaps no marker is inside a marker |
| Markers.HighlightAllResult | extension/content.js:295-313 | trying the corrections one after the other, in the order given, keeps the text |
| Markers.HighlightAllBounds | extension/content.js:295-313 | after the pass, every marker that was there is still there, and every new one is the marker of a correction, none more often than it occurs in the list |
| Markers.HighlightAllFirst | extension/content.js:295-308 | the first correction tried gets its marker when it overlaps no existing marker |
| Markers.HighlightAllSeparate | extension/content.js:295-313 | when no two corrections overlap, none occurs twice and none overlaps an existing marker, every correction gets its marker: the markers after the pass are exactly the old ones plus one per correction |
| Markers.Tried | extension/content.js:291-295 | the corrections tried are those of the check, each describing the text it replaces, sorted from the last start to the first |
| Markers.ProcessedKeepsText | extension/content.js:281-315 | the element's text never changes; blank content is left alone; with the extension disabled no marker is left |
| Markers.ProcessedMarks | extension/content.js:281-315 | on content that is not blank, every marker left is the marker of a correction of the text, none more often than reported, and the correction that starts last always gets its marker when the extension is enabled |
| Markers.ProcessedSeparate | extension/content.js:281-315 | when the check's corrections do not overlap and none is reported twice, every one of them gets its marker, at its `startIndex` and holding its `original`, and no other marker is left |
| Markers.Editable.Unwrap | extension/content.js:34-37 | the marker's children take its place, followed by an empty text node in the contenteditable pass (line 288); everything around it is unchanged |
| Markers.Editable.ClearAllHighlights | extension/content.js:31-38 | every marker, nested ones included, is gone; the text nodes are those that were there, so the text is unchanged |
| Markers.Editable.UnwrapForCheck | extension/content.js:285-289 | the content becomes the unwrapped content: each marker is replaced by its children and an empty text node |
| Markers.Editable.HighlightCorrection | extension/content.js:295-308 | the new content is exactly the one-correction result (`HighlightResult`): unchanged, or with the correction's marker placed at its offsets |
| Markers.Editable.HighlightAll | extension/content.js:295-313 | the new content is exactly the result of trying the corrections in the order given (`HighlightAllResult`) |
| Markers.Editable.ProcessContentEditable | extension/content.js:281-315 | the new content is exactly the specified result of the pass (`Processed`), whose text, markers and completeness the lemmas above state |

## Left out

- The simulated delay of `checkGrammar` (api.js:19) and the promise around it are left out. The check is a function of the text, and `enabled` (content.js:292) is a parameter of `ProcessContentEditable`, read when the result arrives.
- `words = text.split(/\b/)` (api.js:22) is computed and never used, so it is not modelled.
- No regular-expression engine is modelled. The matcher covers the pattern shape of the ten rules (`\b`, literal words and `(\w+)` separated by `\s+`, then `\b`), and `Grammar.RulesAreValid` proves that every rule has that shape.
- Strings are sequences of Unicode characters, where JavaScript counts UTF-16 code units. Offsets and lengths therefore differ for text outside the Basic Multilingual Plane.
- JsText.LowerAscii: lower-cases ASCII letters only. `toLowerCase` also maps other letters.
- Grammar.Capitalized: maps case for ASCII letters only. `toUpperCase`/`toLowerCase` also map other letters, and can change the length (`ß` becomes `SS`).
- HTML escaping (`escapeHtml`), the `<br>` rewrite, the markup of a marker span and its `data-*` attributes are left out. A mirror part is kept as the text it shows, and its marker as the correction.
- Event listeners are left out:
  - the `input` event and the counter message after an accepted textarea suggestion (content.js:275-276);
  - the re-check that follows it (content.js:277);
  - tooltips, `onmouseenter`/`onmouseleave` (content.js:309-312) and the dataset of new spans.
- Everything else outside the functions above is left out:
  - the `MutationObserver`;
  - `setupTextareaMirror`, styles and scrolling;
  - `processTextarea`;
  - the popup and the background worker.
- `acceptContentEditableCorrection` (content.js:338 onwards) is not part of this model.
- `clearAllHighlights` is modelled for the markers of one element. Two parts are not modelled:
  - its document-wide scope;
  - the removal of the textarea wrappers (content.js:39-47).
- The text of a contenteditable element is its `textContent`. `innerText` (content.js:282) depends on layout and is not modelled.
- The element content is modelled with text nodes and marker spans only; other elements are not modelled. The model's `surroundContents` lets the range's points be in the same text node, in two text nodes of the same parent, or (recursively) inside the same marker. Every other placement has a marker partially inside the range. `surroundContents` throws there, the exception is caught, and the model returns `None`. `setStart`/`setEnd` are given in-bounds points, which the walk guarantees (`OffsetIndex.WalkResultInside`).
- When corrections overlap, no lemma says which of the later wraps succeed. That depends on how earlier markers split the text nodes. `Markers.Processed` computes the outcome exactly and `Markers.HighlightAllBounds` bounds it; `Markers.HighlightAllSeparate` gives every marker when no two corrections overlap.
- Corrections.SortByStart: its contract states order and permutation. Stability, meaning that equal starts keep their input order, follows from the insertion that defines it. It is stated only for input already in order (`Corrections.SortOfSortedIsIdentity`).
