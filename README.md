# latexbreak in Dafny

latexbreak reformats a LaTeX document. It puts each sentence on a line of its own, puts line
breaks around configured macros and joins soft-wrapped paragraphs. The originals are
`LatexBreak.java` and `LatexLine.java`. This project models the reformatter's core and proves
properties of it.

The model has two layers.

- **Specification functions on values.** A document is a `seq<Line>`. `Line` is the value view
  of a `LatexLine`: content plus the three tags `protect` (verbatim), `protectSentences`
  (block math) and `lineComment`. Each pass of `process()` is a function over the whole list.
  - `Tagging`: detectVerbatim, detectMath, trim, detectComments.
  - `BlankLines`: removeDuplicateBlankLines.
  - `Merging`: removeLinebreaks.
  - `Breaking` and `Grammar`: addLinebreaks, with the bracket, lead-in and comment-split
    patterns written as scanners.
  - `Sentences`: splitSentences.
  - `Pipeline`: the passes chained as `process()` chains them, ending in `Run`.

  The properties are lemmas about these functions. Examples: what each tag marks, both
  directions of the comment-split grammar, the reference definition of blank-line
  de-duplication, the invariants of merging and breaking, and the way sentence splitting tiles
  a line. End to end, the lemmas show what the whole run keeps (the non-whitespace text, the
  verbatim lines) and where it stops.
- **Imperative classes.** `LatexLines.LatexLine` is a class whose fields the methods update in
  place, as in Java. `LatexBreaks.LatexBreak` holds `lines: seq<LatexLine>`, whose objects are
  pairwise distinct, plus the ordered macro rules. It has one method per pass, with the loops,
  removals, in-place updates and fresh objects of the Java code. Each method is proved against
  its specification function: `ensures Views(lines) == F(old(Views(lines)))`. `Process` is
  proved equal to `Pipeline.Run` on the initial lines.

Configuration values are constructor parameters (`Pipeline.Config`):

- Whole-line regular expressions (region markers, merge guards) are predicates on a line's
  content.
- The inline-math patterns are oracles. Each gives the length of its match at the start of the
  remaining text, or -1.
- The sentence-end characters are a set.

Behaviour of the code worth knowing, which the model reproduces:

- **No guard patterns.** Macro rules carry no guard, so a rule for `part` also fires inside
  `\partial` (`Grammar.RuleFiresInsideLongerName`).
- **Verbatim lines are not byte-identical.** `removeDuplicateBlanks` does not skip verbatim
  lines, so their space runs are collapsed. The end-to-end lemma `Pipeline.RunKeepsVerbatim`
  states this.
- **Comment lines are split into sentences.** splitSentences exempts only math, verbatim and
  blank lines. Comment lines are split too.
- **The comment split is not total.** It does not match a line such as `\%%`: an escaped `%`
  directly followed by a real one. On such a line addLinebreaks stops the run
  (`Grammar.EscapedThenRealHasNoSplit`, `Breaking.AddBreaksFails`).
- **Adjacent invocations are skipped.** A rule's lead-in character is consumed by the previous
  match, so in `\foo{a}\foo{b}` only the first invocation gets its break
  (`Grammar.AdjacentInvocationSkipped`).
- **A whitespace line-end character produces blank lines.** A sentence line is the stripped
  text up to and including its line-end character. If that character is whitespace, the
  sentence line can be empty: with `' '` as a line end, `a   b` becomes `a`, `%`, the empty
  line, `%` and ` b` (`Sentences.WhitespaceLineEndMakesBlank`). With line-end characters that
  are not whitespace, splitSentences adds no blank line (`Sentences.SplitLineNotBlank`).
- **Commented-out text can leave its comment.** splitSentences cuts comment lines like any
  other line, and the piece after a sentence end no longer starts with `%`. With `.` as a
  line end, `% a. \foo b` passes addLinebreaks untouched. It then becomes `% a.`, `%` and
  ` \foo b`, and the final trim leaves `\foo b` (`Pipeline.CommentTailLeavesComment`). On a
  second run that line is ordinary text, and an After rule for `foo` breaks it into `\foo` and
  `b` (`Pipeline.SecondRunBreaksTail`). So a second run does not in general reproduce the
  text, and text that was commented out becomes part of the document.
- **Java assertions are treated as enabled.**
  - The `assert depth >= 0` of detectVerbatim and detectMath stops the run with
    `UnbalancedRegion`.
  - The exception of addLinebreaks stops it with `NoCommentSplit`.
  - The asserts of `LatexLine` are preconditions.

## Model

| member | source | states |
|---|---|---|
| LatexLines.CloneWith | src/latexbreak/LatexLine.java:53-58 | a clone carrying text s has content s, the original's protect and protectSentences, and lineComment false |
| LatexLines.LatexLine.constructor | src/latexbreak/LatexLine.java:7-9 | a new line has the given content and all three tags false |
| LatexLines.LatexLine.Strip | src/latexbreak/LatexLine.java:16-20 | requires the line not verbatim; the content becomes its strip, the tags are unchanged |
| LatexLines.LatexLine.Append | src/latexbreak/LatexLine.java:38-42 | requires the line not verbatim; the content becomes content + s, nothing else changes |
| LatexLines.LatexLine.Concat | src/latexbreak/LatexLine.java:44-50 | requires equal protectSentences and neither line verbatim; this content becomes this + that, and only this line changes |
| LatexLines.LatexLine.Clone | src/latexbreak/LatexLine.java:52-58 | returns a fresh line that is CloneWith(this, content) |
| LatexLines.LatexLine.Split | src/latexbreak/LatexLine.java:60-69 | one fresh, distinct line per piece of String.split, in order, each a clone carrying its piece; the receiver is unchanged |
| LatexLines.LatexLine.Substring | src/latexbreak/LatexLine.java:96-99 | the content becomes content[begin..end]; the tags are unchanged |
| LatexLines.LatexLine.SetContent | src/latexbreak/LatexLine.java:101-104 | only the content changes |
| Text.StripLeadingShape | src/latexbreak/LatexLine.java:18 | leading strip removes exactly a blank prefix and leaves no leading whitespace |
| Text.StripTrailingShape | src/latexbreak/LatexLine.java:18 | trailing strip removes exactly a blank suffix and leaves no trailing whitespace |
| Text.StripIsStripped | src/latexbreak/LatexLine.java:16-20 | strip leaves no leading or trailing whitespace |
| Text.StripSlice | src/latexbreak/LatexLine.java:18 | strip is the middle slice of the text, with a blank part on either side |
| Text.StrippedIsFixed | src/latexbreak/LatexLine.java:18 | strip leaves a stripped text unchanged |
| Text.StripIdempotent | src/latexbreak/LatexLine.java:16-20 | stripping twice is stripping once |
| Text.StripLeadingOfBlank | src/latexbreak/LatexLine.java:18 | a blank text strips to nothing from the left |
| Text.StripEmptyIffBlank | src/latexbreak/LatexLine.java:18-23 | strip gives the empty text if and only if the text is blank |
| Text.NonWsOfBlank | src/latexbreak/LatexLine.java:22-24 | a text is blank if and only if it has no non-whitespace character |
| Text.StripKeepsNonWs | src/latexbreak/LatexLine.java:18 | strip removes whitespace only |
| Text.NonWsAppend | src/latexbreak/LatexLine.java:40 | the non-whitespace characters of a concatenation are those of its parts |
| Text.SplitAll | src/latexbreak/LatexLine.java:63 | the pieces between separators hold no separator, and there is at least one |
| Text.JoinSplitAll | src/latexbreak/LatexLine.java:63 | joining the pieces with the separator gives the text back |
| Text.SplitAllPrefix | src/latexbreak/LatexLine.java:63 | a separator-free head followed by a separator is the first piece |
| Text.SplitAllNoSep | src/latexbreak/LatexLine.java:63 | a text without separator is its only piece |
| Text.SplitJoinWith | src/latexbreak/LatexLine.java:63 | splitting separator-free pieces joined by the separator gives the pieces back |
| Text.DropTrailingEmpty | src/latexbreak/LatexLine.java:63 | String.split's removal of trailing empty pieces: a prefix ending in a non-empty piece, and only empty pieces dropped |
| Text.JavaSplit | src/latexbreak/LatexLine.java:63 | no piece of String.split holds the separator |
| Text.NonWsAllSplitAll | src/latexbreak/LatexLine.java:63 | splitting at a whitespace separator keeps the non-whitespace characters, in order |
| Text.NonWsAllDropEmpty | src/latexbreak/LatexLine.java:63 | dropping trailing empty pieces keeps the non-whitespace characters |
| Text.JavaSplitKeepsNonWs | src/latexbreak/LatexLine.java:63 | String.split at the line separator keeps the non-whitespace characters, in order |
| Text.NoDoubleSpaceCons | src/latexbreak/LatexBreak.java:177 | a text has no two adjacent spaces if and only if its tail has none and it does not start with two |
| Text.ReplaceDoubleSpaces | src/latexbreak/LatexBreak.java:177-179 | one replaceAll("  ", " ") never lengthens the text and shortens it while a double space remains, so the loop ends |
| Text.CollapseSpaces | src/latexbreak/LatexBreak.java:177-179 | the loop's result has no double space, is empty only for the empty text, and keeps the first and last character |
| Text.CollapseCons | src/latexbreak/LatexBreak.java:177-179 | collapsing drops a space only where another space follows it |
| Text.ReplaceCons | src/latexbreak/LatexBreak.java:178 | replaceAll("  ", " ") scans left to right and replaces non-overlapping pairs |
| Text.CollapseOfSpaceFree | src/latexbreak/LatexBreak.java:177 | a text without double space is left unchanged (the loop body does not run) |
| Text.CollapseSpaceCons | src/latexbreak/LatexBreak.java:177-179 | a leading space merges with the collapsed rest |
| Text.CollapseAfterReplace | src/latexbreak/LatexBreak.java:177-179 | loop invariant: one replaceAll does not change what the whole loop produces |
| Text.CollapseIdempotent | src/latexbreak/LatexBreak.java:175-181 | collapsing twice is collapsing once |
| Text.CollapseKeepsChars | src/latexbreak/LatexBreak.java:177-179 | every character of the result occurs in the input |
| Text.CollapseKeepsStripped | src/latexbreak/LatexBreak.java:177-179 | collapsing keeps a stripped text stripped |
| Text.CollapseKeepsNonWs | src/latexbreak/LatexBreak.java:177-179 | collapsing keeps the non-whitespace characters, in order |
| Text.NonWsJoinSpace | src/latexbreak/LatexBreak.java:302 | joining two texts with a space adds no non-whitespace character |
| Grammar.NestingSnoc | src/latexbreak/LatexBreak.java:29-33 | bracket nesting grows by one at an opening bracket and drops by one at a closing bracket |
| Grammar.CloseFrom | src/latexbreak/LatexBreak.java:29-33 | where the group scan ends lies after its start and within the text |
| Grammar.GroupEnd | src/latexbreak/LatexBreak.java:29-33 | a group that starts at q ends after q and within the text |
| Grammar.ArgsEnd | src/latexbreak/LatexBreak.java:37 | the argument run ends at or after its start and within the text |
| Grammar.CloseFromSound | src/latexbreak/LatexBreak.java:29-33 | what the scan finds is a balanced group |
| Grammar.CloseFromComplete | src/latexbreak/LatexBreak.java:29-33 | the scan finds the end of every balanced group |
| Grammar.GroupEndIsBalanced | src/latexbreak/LatexBreak.java:29-33 | `curly`/`squared` match s[q..e] if and only if it is a balanced group of that bracket kind |
| Grammar.RunCons | src/latexbreak/LatexBreak.java:37 | a group followed by a run of groups is a run of groups |
| Grammar.ArgsAreGroups | src/latexbreak/LatexBreak.java:37 | the captured args are a run of balanced groups, and no further group follows them |
| Grammar.MatchAt | src/latexbreak/LatexBreak.java:37-43 | a match is the lead-in, a backslash, the name and the args, and the lead-in is empty exactly at a backslash at the start of the text |
| Grammar.MatchSlice | src/latexbreak/LatexBreak.java:75 | the matched text is the concatenation of its captured parts |
| Grammar.NoMatchCopies | src/latexbreak/LatexBreak.java:338-339 | where the pattern matches nowhere, replaceAll copies the text |
| Grammar.RuleFiresInsideLongerName | src/latexbreak/LatexBreak.java:74-76 | a rule for `part` breaks `\partial` apart (no guard) |
| Grammar.MixedArgs | src/latexbreak/LatexBreak.java:29-37 | a `]` inside a curly group is an ordinary character |
| Grammar.MixedMatch | src/latexbreak/LatexBreak.java:29-43 | the match of `\foo{a]b}[c]` captures both groups |
| Grammar.ArgumentsKeepMixedBrackets | src/latexbreak/LatexBreak.java:78-80 | breakAfterMacro puts the break after the whole argument run |
| Grammar.EscapedBackslashNotMatched | src/latexbreak/LatexBreak.java:39-43 | `\\foo` (an escaped backslash) is not an invocation |
| Grammar.FirstOfAdjacent | src/latexbreak/LatexBreak.java:43 | the first of two adjacent invocations matches with an empty lead-in |
| Grammar.NoneAfterAdjacent | src/latexbreak/LatexBreak.java:43 | after that match, no match starts in the rest of the text |
| Grammar.AdjacentInvocationSkipped | src/latexbreak/LatexBreak.java:82-84 | breakBeforeMacro on two adjacent invocations breaks only before the first |
| Grammar.WithoutSeparators | src/latexbreak/LatexBreak.java:74-84 | the text with the line separators removed holds no separator |
| Grammar.WithoutSeparatorsAppend | src/latexbreak/LatexBreak.java:74-84 | removing separators distributes over concatenation |
| Grammar.WithoutSeparatorsInsert | src/latexbreak/LatexBreak.java:74-84 | inserting separator-only texts changes nothing once separators are removed |
| Grammar.SeparatorOnly | src/latexbreak/LatexBreak.java:74-84 | nothing or a lone separator is empty once separators are removed |
| Grammar.ReplacementAddsSeparatorsOnly | src/latexbreak/LatexBreak.java:74-84 | each template re-emits the lead-in, backslash, name and args, and only adds separators |
| Grammar.MatchStep | src/latexbreak/LatexBreak.java:339 | replacing one match keeps the text up to the separators |
| Grammar.CopyStep | src/latexbreak/LatexBreak.java:339 | copying one unmatched character keeps the text up to the separators |
| Grammar.RewriteFromAddsSeparatorsOnly | src/latexbreak/LatexBreak.java:338-339 | round trip: deleting the separators from a rewritten text gives the original text |
| Grammar.RulesAddSeparatorsOnly | src/latexbreak/LatexBreak.java:337-340 | the same for all rules applied in order |
| Grammar.NoSeparatorsFixed | src/latexbreak/LatexBreak.java:332-336 | a text without separators is left as it is by separator removal |
| Grammar.FirstRealPercent | src/latexbreak/LatexBreak.java:50 | the first % that is not after a backslash: none earlier, and it is one |
| Grammar.CommentSplitSound | src/latexbreak/LatexBreak.java:47-50 | a split the scanner returns is a match of the `commentSplit` pattern |
| Grammar.CommentSplitComplete | src/latexbreak/LatexBreak.java:47-50 | every match of the pattern is the split the scanner returns (the match is unique) |
| Grammar.EscapedThenRealHasNoSplit | src/latexbreak/LatexBreak.java:47-50 | `\%%` has no comment split |
| Grammar.EscapedPercentIsText | src/latexbreak/LatexBreak.java:47-50 | an escaped % stays in the prefix, a real one starts the suffix |
| Grammar.UnescapedCommentIffRealPercent | src/latexbreak/LatexBreak.java:45 | `partialComment` matches a line without terminators if and only if it holds a % not after a backslash |
| Tagging.Count | src/latexbreak/LatexBreak.java:246-256 | the markers among the first k lines number at most k |
| Tagging.TagVerbatim | src/latexbreak/LatexBreak.java:244-258 | fails exactly when a region closes too often; otherwise only protect changes, and a line is verbatim if and only if it was or lies inside a region |
| Tagging.TagMath | src/latexbreak/LatexBreak.java:260-274 | the same for protectSentences and the block-math markers |
| Tagging.StepCounts | src/latexbreak/LatexBreak.java:247-256 | one loop iteration: the depth is the begin count minus the end count, and the line is tagged when inside |
| Tagging.Tagged | src/latexbreak/LatexBreak.java:244-258 | the tagged prefix has one line per line scanned |
| Tagging.TaggedAt | src/latexbreak/LatexBreak.java:250-252 | line j is tagged if and only if it is inside a region |
| Tagging.TagRegionsIs | src/latexbreak/LatexBreak.java:244-258 | on a balanced list the pass tags exactly the lines inside regions |
| Tagging.BalancedUpToAll | src/latexbreak/LatexBreak.java:253-256 | the asserts pass up to line k if and only if no prefix has more ends than begins |
| Tagging.BalancedUpToPrefix | src/latexbreak/LatexBreak.java:253-256 | passing the asserts up to k means passing them up to any j <= k |
| Tagging.ScanFrom | src/latexbreak/LatexBreak.java:244-258 | loop invariant: the scan from line k on finishes the tagging or stops at the first failing assert |
| Tagging.ScanFromStart | src/latexbreak/LatexBreak.java:244-258 | the whole scan tags every line inside a region or fails |
| Tagging.ScanIsTagging | src/latexbreak/LatexBreak.java:244-274 | the depth-counter scan equals the reference definition of the tagging |
| Tagging.MarkerLinesInside | src/latexbreak/LatexBreak.java:247-256 | in a balanced list both the begin-marker line and the end-marker line are tagged |
| Tagging.OutsideBetweenRegions | src/latexbreak/LatexBreak.java:250-252 | at depth zero a line that opens nothing is not tagged |
| Tagging.UnbalancedAtFirstExcessEnd | src/latexbreak/LatexBreak.java:253-256 | an end marker at depth zero makes the pass fail |
| Tagging.TrimLines | src/latexbreak/LatexBreak.java:284-290 | verbatim lines are unchanged; every other line keeps its tags and has stripped content |
| Tagging.TrimIdempotent | src/latexbreak/LatexBreak.java:284-290 | trimming twice is trimming once |
| Tagging.TrimInit | src/latexbreak/LatexBreak.java:284-290 | trim works line by line |
| Tagging.TrimKeepsLetters | src/latexbreak/LatexBreak.java:284-290 | trim keeps the non-whitespace characters of the document, in order |
| Tagging.TrimKeepsProtected | src/latexbreak/LatexBreak.java:286 | trim keeps the verbatim lines |
| Tagging.TagComments | src/latexbreak/LatexBreak.java:276-282 | only lineComment changes, and it is set if and only if it was set or the content starts with % |
| BlankLines.Dedup | src/latexbreak/LatexBreak.java:310-323 | the pass never adds lines |
| BlankLines.Unprotected | src/latexbreak/LatexBreak.java:314 | the lines the pass looks at are not verbatim |
| BlankLines.Essential | src/latexbreak/LatexBreak.java:314-315 | the lines the pass never removes are verbatim or not blank |
| BlankLines.Squeeze | src/latexbreak/LatexBreak.java:315-319 | reference definition: a blank line after a blank line is dropped; never more lines, the first line kept |
| BlankLines.DedupKeepsEssential | src/latexbreak/LatexBreak.java:314-320 | the pass removes only blank lines that are not verbatim |
| BlankLines.SqueezeCons | src/latexbreak/LatexBreak.java:319 | a line that is not blank is kept, and resets the flag |
| BlankLines.UnprotectedCons | src/latexbreak/LatexBreak.java:314 | verbatim lines are skipped |
| BlankLines.DedupIsSqueeze | src/latexbreak/LatexBreak.java:310-323 | on the non-verbatim lines the loop (lastEmpty not reset by verbatim lines) is the reference definition |
| BlankLines.DedupBlankLinesSqueezes | src/latexbreak/LatexBreak.java:310-323 | the same for the whole pass |
| BlankLines.SqueezeNoAdjacentBlanks | src/latexbreak/LatexBreak.java:315-317 | afterwards no two adjacent non-verbatim lines are both blank |
| BlankLines.SqueezeKeepsNonBlank | src/latexbreak/LatexBreak.java:315-319 | every line that is not blank survives, in order |
| BlankLines.SqueezeSplits | src/latexbreak/LatexBreak.java:315-319 | a line that is not blank separates runs: the lines up to it and those after it are squeezed independently |
| BlankLines.SqueezeKeepsFirstBlank | src/latexbreak/LatexBreak.java:315-319 | the first blank line of every run of blank lines survives, at its place: right after the squeezed lines in front of it |
| BlankLines.SqueezeFixed | src/latexbreak/LatexBreak.java:315-319 | a list without adjacent blanks is left unchanged |
| BlankLines.ProtectedBlockDoesNotSeparate | src/latexbreak/LatexBreak.java:314-320 | a verbatim line between two blanks does not save the second blank |
| BlankLines.EssentialKeepsText | src/latexbreak/LatexBreak.java:315-317 | removing blank non-verbatim lines keeps the letters and the verbatim lines |
| BlankLines.DedupKeepsText | src/latexbreak/LatexBreak.java:310-323 | the pass keeps the letters and the verbatim lines |
| BlankLines.DedupAdvance | src/latexbreak/LatexBreak.java:312-322 | loop invariant for the in-place removal: keep-and-advance and remove-and-retry both preserve the eventual result |
| BlankLines.DedupFromInput | src/latexbreak/LatexBreak.java:310-323 | every line of the result was a line of the input |
| Merging.Merged | src/latexbreak/LatexBreak.java:302 | the merged line keeps the first line's tags and has stripped content |
| Merging.MergeFrom | src/latexbreak/LatexBreak.java:293-307 | the loop from i on never adds lines |
| Merging.MergeAdvance | src/latexbreak/LatexBreak.java:293-307 | loop invariant: merge-and-retry and advance both preserve the eventual result, and no math tag appears |
| Merging.Barriers | src/latexbreak/LatexBreak.java:294-299 | the lines no merge touches are blank or verbatim |
| Merging.BarriersAppend | src/latexbreak/LatexBreak.java:294-299 | the lines no merge touches distribute over concatenation |
| Merging.ProtectedTextOfBarriers | src/latexbreak/LatexBreak.java:298-299 | all verbatim lines are among them |
| Merging.MergedLetters | src/latexbreak/LatexBreak.java:302 | a merge keeps the letters of both lines, in order, and is not blank |
| Merging.BarriersSplice | src/latexbreak/LatexBreak.java:302-303 | replacing non-barrier lines keeps the barriers |
| Merging.NoBarriers | src/latexbreak/LatexBreak.java:294-299 | a list of lines that a merge may touch has no barriers |
| Merging.MergeStepBarriers | src/latexbreak/LatexBreak.java:302-303 | one merge keeps the blank and verbatim lines |
| Merging.SpliceShape | src/latexbreak/LatexBreak.java:302-303 | the list is the lines before, the pair, and the lines after |
| Merging.LettersSplice | src/latexbreak/LatexBreak.java:302-303 | letters distribute over a three-part split |
| Merging.MergedPairLetters | src/latexbreak/LatexBreak.java:302 | the merged line holds the letters of the pair |
| Merging.MergeStepLetters | src/latexbreak/LatexBreak.java:302-303 | one merge keeps the document's letters |
| Merging.MergeKeepsText | src/latexbreak/LatexBreak.java:292-308 | the pass keeps every blank and verbatim line, in order, and all letters |
| Merging.MergeKeepsProtected | src/latexbreak/LatexBreak.java:298-299 | verbatim lines are never modified or removed |
| Merging.NothingMergeable | src/latexbreak/LatexBreak.java:293-307 | where no guard pair passes, the pass changes nothing |
| Merging.MergedExample | src/latexbreak/LatexBreak.java:302 | "a" merged with "b" is "a b" |
| Merging.ParagraphJoined | src/latexbreak/LatexBreak.java:292-308 | two plain lines become one |
| Merging.CommentStopsMerge | src/latexbreak/LatexBreak.java:300 | a line with an unescaped % is not merged with the next |
| Breaking.PiecesShape | src/latexbreak/LatexBreak.java:342-347 | every emitted piece is not blank, is stripped, and is a clone of the line |
| Breaking.BrokenLinesShape | src/latexbreak/LatexBreak.java:329-348 | a broken line becomes non-blank, stripped, untagged lines with the line's protectSentences |
| Breaking.AddBreaksFails | src/latexbreak/LatexBreak.java:332-335 | the pass fails if and only if some line that does not pass through has no comment split |
| Breaking.NonWsWithoutSeparators | src/latexbreak/LatexBreak.java:342 | removing separators keeps the non-whitespace characters |
| Breaking.RulesKeepNonWs | src/latexbreak/LatexBreak.java:337-340 | the rules keep the non-whitespace characters |
| Breaking.PiecesKeepNonWs | src/latexbreak/LatexBreak.java:342-347 | dropping blank pieces and stripping keeps the letters |
| Breaking.BreakLineKeepsLetters | src/latexbreak/LatexBreak.java:329-347 | a line's replacement lines hold its letters, in order |
| Breaking.BreakLineKeepsProtected | src/latexbreak/LatexBreak.java:329-330 | verbatim lines pass through |
| Breaking.AddBreaksKeepsText | src/latexbreak/LatexBreak.java:325-351 | the pass keeps the letters and the verbatim lines |
| Breaking.AddBreaksSnoc | src/latexbreak/LatexBreak.java:328-349 | loop step: one more line either extends the result or stops the pass |
| Breaking.AddBreaksStops | src/latexbreak/LatexBreak.java:333-335 | after the first failure the result is that failure |
| Breaking.PiecesSnoc | src/latexbreak/LatexBreak.java:342-347 | loop step: a blank piece is dropped, any other piece is stripped and appended |
| Sentences.Advance | src/latexbreak/LatexBreak.java:196-213 | the index moves forward; outside math, where no begin marker matches, a sentence end is recorded if and only if a line-end character followed by a space is at i; nowhere else is one recorded |
| Sentences.Ends | src/latexbreak/LatexBreak.java:196-214 | the sentence ends are increasing, leave room for the following space, and start no earlier than the scan |
| Sentences.ScanEndsIsEnds | src/latexbreak/LatexBreak.java:196-214 | the accumulating scan yields the same ends |
| Sentences.EndsAreEnds | src/latexbreak/LatexBreak.java:208 | every recorded end is a line-end character followed by a space |
| Sentences.FitsCons | src/latexbreak/LatexBreak.java:208-211 | an earlier end in front of increasing ends keeps them increasing |
| Sentences.Emitted | src/latexbreak/LatexBreak.java:209-210 | two lines per sentence end |
| Sentences.FitsSnoc | src/latexbreak/LatexBreak.java:208-211 | a later end keeps the ends increasing |
| Sentences.EmittedSnoc | src/latexbreak/LatexBreak.java:209-211 | each end adds the stripped sentence since the last end and a "%" line |
| Sentences.SplitSentencesSnoc | src/latexbreak/LatexBreak.java:190-222 | loop step over the lines: each line adds what it is cut into |
| Sentences.EmittedIsEmitWith | src/latexbreak/LatexBreak.java:209-210 | the emitted lines are the generic emission with the line's own cut |
| Sentences.ScanLineMove | src/latexbreak/LatexBreak.java:196-213 | one iteration of the character loop |
| Sentences.ScanStep | src/latexbreak/LatexBreak.java:196-213 | one iteration keeps the loop state in step with the ends found |
| Sentences.ScanLineIsEmitted | src/latexbreak/LatexBreak.java:196-214 | the character loop emits the lines for the ends it finds and leaves lastSentenceEnd at the last of them |
| Sentences.ScanLineEmits | src/latexbreak/LatexBreak.java:194-214 | from the start of a line the loop emits the lines for its sentence ends |
| Sentences.FitsRest | src/latexbreak/LatexBreak.java:215 | the rest starts just after the last end and within the line |
| Sentences.Visited | src/latexbreak/LatexBreak.java:196-213 | the positions the character loop stops at lie within the line, from where it started |
| Sentences.EndsAreVisitedEnds | src/latexbreak/LatexBreak.java:196-213 | a sentence ends at e if and only if the loop stops at e outside math, no begin marker matches there, and e holds a line-end character followed by a space |
| Sentences.EndsWithoutMarkers | src/latexbreak/LatexBreak.java:204-208 | without inline math a split happens at i if and only if c[i] is a line end followed by a space |
| Sentences.NoEndsInMath | src/latexbreak/LatexBreak.java:197-202 | inside math that never ends no sentence ends |
| Sentences.EvensOddsSingle | src/latexbreak/LatexBreak.java:217 | appending the rest extends the sentence lines |
| Sentences.EvensOddsPair | src/latexbreak/LatexBreak.java:209-210 | appending a sentence and its "%" line extends both lists |
| Sentences.EmittedLast | src/latexbreak/LatexBreak.java:209-210 | the last end adds its sentence to the sentence lines and "%" to the marker lines |
| Sentences.EmittedOdds | src/latexbreak/LatexBreak.java:210 | every second emitted line is a "%" clone of the line |
| Sentences.TileStep | src/latexbreak/LatexBreak.java:209 | a stripped sentence and the rest after it hold the letters of the whole rest |
| Sentences.LettersLast | src/latexbreak/LatexBreak.java:209 | the last sentence adds its stripped letters |
| Sentences.TileLast | src/latexbreak/LatexBreak.java:209-211 | the tiling invariant survives one more sentence |
| Sentences.EmittedLetters | src/latexbreak/LatexBreak.java:209 | the sentence lines hold the letters of the sentences |
| Sentences.SentencesTile | src/latexbreak/LatexBreak.java:209-215 | the sentences and the rest together hold the line's letters, in order |
| Sentences.SplitAtRest | src/latexbreak/LatexBreak.java:215-217 | with a non-blank rest: all letters kept, one more text line than "%" lines |
| Sentences.SplitAtNoRest | src/latexbreak/LatexBreak.java:215-220 | with a blank rest the last "%" line is taken back: all letters kept, one more text line than "%" lines |
| Sentences.SplitAtKeepsText | src/latexbreak/LatexBreak.java:209-220 | a cut line keeps its letters; text lines and "%" lines alternate, starting and ending with text |
| Sentences.SplitLineKeepsText | src/latexbreak/LatexBreak.java:194-220 | the same at the ends the scan finds |
| Sentences.CutNotBlank | src/latexbreak/LatexBreak.java:209 | a stripped sentence that ends in a character other than whitespace is not blank |
| Sentences.EmittedNotBlank | src/latexbreak/LatexBreak.java:209-210 | when no sentence ends at a whitespace character, no emitted line is blank |
| Sentences.SplitLineNotBlank | src/latexbreak/LatexBreak.java:194-220 | with line-end characters that are not whitespace, no line a line is cut into is blank (a blank rest takes the last "%" back) |
| Sentences.WhitespaceLineEndMakesBlank | src/latexbreak/LatexBreak.java:208-211 | with ' ' as a line end, `a   b` is cut into `a`, `%`, an empty line, `%` and ` b` |
| Sentences.SplitAtClones | src/latexbreak/LatexBreak.java:209-215 | every resulting line is a clone of the original (same protect and protectSentences, lineComment false) |
| Sentences.EmittedClones | src/latexbreak/LatexBreak.java:209-210 | every emitted line is such a clone |
| Sentences.LinesForKeepProtected | src/latexbreak/LatexBreak.java:191-192 | verbatim lines pass through as one line |
| Sentences.SplitKeepsProtected | src/latexbreak/LatexBreak.java:188-224 | the pass keeps the verbatim lines, in order |
| Pipeline.CollapseAll | src/latexbreak/LatexBreak.java:175-181 | every line keeps its tags and has no double space afterwards |
| Pipeline.RenderSnoc | src/latexbreak/LatexBreak.java:168-171 | loop step: each line adds its content and the separator |
| Pipeline.RenderSplits | src/latexbreak/LatexBreak.java:167-172 | round trip: splitting the result at the separator gives the line contents, in order, then the empty text |
| Pipeline.FinishNormalises | src/latexbreak/LatexBreak.java:165-166 | after the last trim and removeDuplicateBlanks no line has a double space, non-verbatim lines are stripped, and the tags are unchanged |
| Pipeline.CollapseAllIdempotent | src/latexbreak/LatexBreak.java:175-181 | running removeDuplicateBlanks again changes nothing |
| Pipeline.CollapseAllInit | src/latexbreak/LatexBreak.java:176 | the pass works line by line |
| Pipeline.CollapseAllKeepsText | src/latexbreak/LatexBreak.java:175-181 | the pass keeps the letters, and the verbatim lines are kept with their space runs collapsed |
| Pipeline.CollapseEachAppend | src/latexbreak/LatexBreak.java:176 | collapsing is done text by text |
| Pipeline.SameText | src/latexbreak/LatexBreak.java:244-282 | passes that only change tags keep the letters, and keep the verbatim lines when protect is unchanged |
| Pipeline.PrepareKeepsText | src/latexbreak/LatexBreak.java:153-159 | the first passes keep the letters, and the verbatim lines as detectVerbatim marked them |
| Pipeline.PrepareKeepsNoMathTags | src/latexbreak/LatexBreak.java:153-158 | no block-math tag is present when removeLinebreaks runs |
| Pipeline.BreakKeepsText | src/latexbreak/LatexBreak.java:160-164 | the middle passes keep the verbatim lines; without sentence splitting they also keep the letters |
| Pipeline.RunKeepsVerbatim | src/latexbreak/LatexBreak.java:152-173 | the verbatim lines of the result are those of the input, in order, with their space runs collapsed |
| Pipeline.RunKeepsLetters | src/latexbreak/LatexBreak.java:152-173 | without sentence splitting the result holds the input's non-whitespace characters, in order |
| Pipeline.RunNormalised | src/latexbreak/LatexBreak.java:165-166 | every result line is free of double spaces, and stripped unless verbatim |
| Pipeline.RunFails | src/latexbreak/LatexBreak.java:153-161 | the run fails if and only if a verbatim region is unbalanced, addLinebreaks fails, or a block-math region is unbalanced after it; an unbalanced verbatim region gives UnbalancedRegion; addLinebreaks fails if and only if a line that does not pass through has no comment split |
| Pipeline.CommentTailLeavesComment | src/latexbreak/LatexBreak.java:188-224 | a comment line passes addLinebreaks untouched, but splitSentences cuts `% a. \foo b` into `% a.`, `%` and ` \foo b`, which is no comment and trims to `\foo b` |
| Pipeline.SecondRunBreaksTail | src/latexbreak/LatexBreak.java:325-351 | on a second run an After rule for foo breaks `\foo b` into `\foo` and `b` |
| LatexBreaks.ViewsAppend | src/latexbreak/LatexBreak.java:330 | the views of two lists of lines are the views of each |
| LatexBreaks.CountLine | src/latexbreak/LatexBreak.java:247-256 | one loop iteration on the line object: the new depth and the tagged line are one `Step` of the counter scan `Scan`, which `ScanIsTagging` proves equal to `TagRegions` |
| LatexBreaks.CollapseLine | src/latexbreak/LatexBreak.java:177-179 | the while loop leaves the content collapsed and the tags unchanged |
| LatexBreaks.MergeAt | src/latexbreak/LatexBreak.java:302 | append, concat and strip change only line i, to the merged line |
| LatexBreaks.ApplyReplacements | src/latexbreak/LatexBreak.java:337-340 | the loop over the rules rewrites the prefix rule by rule, in order |
| LatexBreaks.StripPieces | src/latexbreak/LatexBreak.java:342-347 | keeps the pieces that are not blank, stripped, as distinct objects taken from the split |
| LatexBreaks.BreakOne | src/latexbreak/LatexBreak.java:329-348 | one line's replacement lines, or the failure of the comment split, as the specification function `BreakLine` gives them |
| LatexBreaks.CutLine | src/latexbreak/LatexBreak.java:209-215 | a fresh clone carrying the slice, stripped when asked |
| LatexBreaks.PercentLine | src/latexbreak/LatexBreak.java:210 | a fresh clone carrying "%" |
| LatexBreaks.EmitSentence | src/latexbreak/LatexBreak.java:209-210 | the sentence line and the "%" line, as two fresh objects |
| LatexBreaks.ScanSentences | src/latexbreak/LatexBreak.java:194-214 | the character loop emits the lines for the sentence ends of the line, and lastSentenceEnd + 1 is where the rest starts |
| LatexBreaks.SplitOne | src/latexbreak/LatexBreak.java:191-221 | what one line becomes, as `LinesFor` gives it; an exempt line is kept as the same object, alone; every other line is fresh |
| LatexBreaks.LatexBreak.constructor | src/latexbreak/LatexBreak.java:183-186 | one fresh, untagged line per input line, and no rule registered |
| LatexBreaks.LatexBreak.BreakAroundMacro | src/latexbreak/LatexBreak.java:74-76 | appends an Around rule; the lines are unchanged |
| LatexBreaks.LatexBreak.BreakAfterMacro | src/latexbreak/LatexBreak.java:78-80 | appends an After rule; the lines are unchanged |
| LatexBreaks.LatexBreak.BreakBeforeMacro | src/latexbreak/LatexBreak.java:82-84 | appends a Before rule; the lines are unchanged |
| LatexBreaks.LatexBreak.DetectRegions | src/latexbreak/LatexBreak.java:244-274 | the depth-counter loop fails exactly when the tagging fails, and otherwise leaves the tagged lines |
| LatexBreaks.LatexBreak.DetectVerbatim | src/latexbreak/LatexBreak.java:244-258 | fails exactly on unbalanced verbatim regions; otherwise the lines are TagVerbatim of the old lines |
| LatexBreaks.LatexBreak.DetectMath | src/latexbreak/LatexBreak.java:260-274 | fails exactly on unbalanced block-math regions; otherwise the lines are TagMath of the old lines |
| LatexBreaks.LatexBreak.Trim | src/latexbreak/LatexBreak.java:284-290 | the lines become TrimLines of the old lines |
| LatexBreaks.LatexBreak.DetectComments | src/latexbreak/LatexBreak.java:276-282 | the lines become TagComments of the old lines |
| LatexBreaks.LatexBreak.RemoveDuplicateBlanks | src/latexbreak/LatexBreak.java:175-181 | the lines become CollapseAll of the old lines |
| LatexBreaks.LatexBreak.RemoveDuplicateBlankLines | src/latexbreak/LatexBreak.java:310-323 | the in-place removal loop leaves DedupBlankLines of the old lines, all taken from the old list |
| LatexBreaks.LatexBreak.RemoveLinebreaks | src/latexbreak/LatexBreak.java:292-308 | the merge-and-retry loop leaves RemoveLinebreaks of the old lines, all taken from the old list |
| LatexBreaks.LatexBreak.AddLinebreaks | src/latexbreak/LatexBreak.java:325-351 | fails exactly when AddBreaks fails, with its failure; otherwise the lines are AddBreaks of the old lines |
| LatexBreaks.LatexBreak.SplitSentences | src/latexbreak/LatexBreak.java:188-224 | the lines become SplitSentences of the old lines |
| LatexBreaks.LatexBreak.Process | src/latexbreak/LatexBreak.java:152-173 | the result is Run of the initial lines: the text, or the failure that stopped the run |
| LatexBreaks.LatexBreak.PrepareLines | src/latexbreak/LatexBreak.java:153-159 | the first passes give Prepare of the old lines, or its failure |
| LatexBreaks.LatexBreak.MergeLines | src/latexbreak/LatexBreak.java:156-159 | removeDuplicateBlankLines then removeLinebreaks, as the specification functions compose them |
| LatexBreaks.LatexBreak.BreakLines | src/latexbreak/LatexBreak.java:160-164 | the middle passes give Break of the old lines, or its failure |
| LatexBreaks.LatexBreak.FinishLines | src/latexbreak/LatexBreak.java:165-172 | the last passes and the join give the rendered Finish of the old lines |
| LatexBreaks.LatexBreak.Joined | src/latexbreak/LatexBreak.java:167-171 | the StringBuilder loop gives each line's content followed by the separator, in order |

## Left out

- `main` and `parseConfig` (LatexBreak.java lines 86-150) are left out: file reading, the
  configuration file and its assert-based validation. The parsed settings are the `Config`
  passed to the constructor, and the macro rules are registered through the three
  `Break…Macro` methods.
- The line separator is `System.lineSeparator()` in the source. Here it is fixed to `'\n'`.
- The regular-expression engine is not modelled. The user-supplied whole-line patterns are
  predicates on the content. The inline-math patterns are oracles for the matched length.
  Macro names are literal strings, and the fixed patterns are written as scanners.
- Whitespace is the explicit list of `Character.isWhitespace` code points, applied per `char`.
  Surrogate pairs are not modelled.
- `LatexLine.replaceAll` is not part of this model: nothing in the pipeline calls it.
- The pure accessors of `LatexLine` (`isBlank`, `startsWith`, `endsWith`, `matches`,
  `length`, `charAt`, `toString`) are one-line functions that read the content. They carry no
  contract of their own.
- Java assertions disabled at run time (the JVM default) are not modelled. With them disabled,
  an unbalanced region would not stop the run.
- LatexBreaks.LatexBreak.Process: requires that no line carries a block-math tag, which holds
  for a freshly constructed object. A second `process()` on the same object is not modelled,
  because `concat`'s assert about matching tags could then fail inside removeLinebreaks.
- LatexBreaks.LatexBreak.RemoveLinebreaks: requires no block-math tags, for the same reason.
- Sentences.Ends: the inline-math oracle is queried on the remaining text as a value. The
  clone-and-substring that the source builds for each query is not modelled as objects.
- Aliasing between the document's line objects and outside references is not modelled. The
  list's objects are pairwise distinct, and each pass states which objects it may change.
