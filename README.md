# Design-spec step of the TDD automation pipeline, in Dafny

This project models the "1-2. 기능 설계 (최종 명세서)" step of the repository's TDD
automation scripts (`tdd-automation/design/02-run-design-spec.js`). The step does
the following, in order:

1. It gathers a project context, made of a fixed listing of the source tree and
   six core source files. A missing file becomes a placeholder. Any other read
   error ends the process with status 1.
2. It sends the context to an agent.
3. It splits the agent's reply on the self-review heading `## 🤖 에이전트 자가 평가`.
4. Four regular expressions read a rating and two notes out of the review part.
   The first note has a lazy expression and a greedy fallback.
5. It removes a surrounding markdown code fence from the specification part,
   trims it, and writes it to the markdown file `output-02-feature-spec` in
   `tdd-automation/logs/`.
6. In its `finally` block, it always builds a result record and a five-line
   checklist, and exits with status 1 when something failed.

The modules are:

- `Strings`: the character classes and search primitives the regular
  expressions rest on. This includes JavaScript's white-space set, which `\s`
  and `String.prototype.trim` share, and the leftmost-match search.
  - `trim` is modelled by index spans.
  - A printed decimal number is modelled together with its `parseInt` reading.
- `Review`: `split(separator, 2)`, the `specContent || rawResponse` choice, and
  the three self-review extractors.
  - Each regular expression becomes the leftmost position at which a
    per-position predicate holds.
  - That predicate encodes the outcome the backtracking matcher settles on:
    greedy `\s*` giving characters back, a lazy group, and the `||` fallback
    from the lazy expression to the greedy one.
- `Fence`: the two `replace` calls with the `i` and `m` flags, and the final
  `trim`.
- `Context`: `readFileContent` and `getProjectContext`, over a file system given
  as a function from path to read outcome.
- `Runner`: `runCreateSpecification` as a method, with a `SelfReviewOutput`
  class for the record that the parsing step updates in place.
  - The agent's reply is a function of the context.
  - Whether the output file can be written is a parameter.

The model follows the code as written. Some of its behaviour is easy to miss:

- The rating is the number after the first `점수:` that optional white space and
  a digit follow. An earlier label without a number is passed over
  (`Review.LabelWithoutNumberSkipped`). The rating is not clamped to the 1 to 10
  range the prompt asks for.
- The prompt asks for the labels in bold (`**점수:** 8`). There, the closing `**`
  stands between the label and the number, so the rating reads as 0
  (`Review.BoldScoreReadsZero`).
- Values parsed from the review are kept when writing the file fails. They are
  recorded with `success` false.
- A non-empty review block that lacks a label gives `평가 텍스트를 찾을 수 없음`
  for that note. It does not give `N/A`, which only survives when there is no
  review block, or when it is empty.
- Both fence expressions carry the `m` flag, so they match at any line, not only
  at the ends of the text.
  - After the fence and an optional `markdown`, the opener needs white space
    that holds a line break. Blanks before the line break are allowed
    (`Fence.OpenerSkipsTrailingBlanks`). A block tagged with another language
    keeps its opening line (`Fence.OtherTagKept`).
  - The closer matches a fence at the end of any line. In a reply that goes on
    after a fenced block, the block's own closing fence is removed, and a later
    fence is kept (`Fence.InnerBlockCloserRemoved`).
- A "잘한 점" note that is blank before a `###` heading does not come out empty
  when a second `\n###` follows. `\s*` takes the blank lines, so the note is the
  heading line itself (`Review.BlankNoteTakesNextHeading`).
- A reply that starts with the separator has an empty part before it. That part
  is falsy, so the whole reply, self-review included, is cleaned and written
  (`Review.ReviewFirstKeepsAll`).

## Model

| member | source | states |
|---|---|---|
| Context.ReadFileContent | tdd-automation/design/02-run-design-spec.js:72-85 | the process exits, with status 1, exactly when the read fails with an error other than a missing file; a readable file gives its content; a missing file gives `// [파일 없음] ` followed by its path |
| Context.ReadAll | tdd-automation/design/02-run-design-spec.js:126-134 | reading the core files one after the other ends in exit status 1 exactly when some read fails |
| Context.ProjectContext | tdd-automation/design/02-run-design-spec.js:87-157 | the context exits with status 1 exactly when the read of one of the six core files fails |
| Context.ContextLayout | tdd-automation/design/02-run-design-spec.js:136-157 | when no read fails, the context is a line break, the file listing, then for each core file in the fixed order its section (`Context.Section`: a `---` rule, its heading and its text, the placeholder for a missing file), and a closing rule |
| Review.SplitResponse | tdd-automation/design/02-run-design-spec.js:267-268 | there is no review part exactly when the separator is absent, and then the specification part is the whole reply; otherwise the specification part is the text before the first separator, and the review part runs from after it to the second separator or to the end, with no separator inside either part |
| Review.SplitRejoins | tdd-automation/design/02-run-design-spec.js:267-268 | a reply holding the separator exactly once is the specification part, the separator and the review part, joined |
| Review.SplitInvertsJoin | tdd-automation/design/02-run-design-spec.js:267-268 | splitting a specification and a review that are joined by the separator gives both back, even when a second separator and more text follow |
| Review.SpecSource | tdd-automation/design/02-run-design-spec.js:287 | the whole reply is cleaned exactly when the separator is absent or starts the reply; otherwise what is cleaned is the non-empty text before the first separator |
| Review.SpecSourceOfJoin | tdd-automation/design/02-run-design-spec.js:287 | with a non-empty specification before the separator, only that specification is cleaned, whatever follows a second separator |
| Review.ReviewFirstKeepsAll | tdd-automation/design/02-run-design-spec.js:287 | a reply that starts with the separator is cleaned whole, with its self-review |
| Review.Rating | tdd-automation/design/02-run-design-spec.js:271-277 | the rating is 0 when the expression matches nowhere (`Strings.Leftmost`: the first position where a match predicate holds, as `match` without `g` takes); a match at p (`Review.RatingMatchAt`) is a `점수:` followed, after the longest white-space run, by a digit |
| Review.RatingFromFirstLabel | tdd-automation/design/02-run-design-spec.js:271-277 | at the leftmost match, the rating is the value (`Strings.DigitsValue`, as `parseInt` reads a digit run) of the maximal digit run (`Strings.SkipDigits`, the greedy `\d+`) after the label and its white space |
| Review.RatingReadsFirstScore | tdd-automation/design/02-run-design-spec.js:271-277 | when the text before a `점수:` holds no match, the number written after that label and any white space is read back exactly, with no bound on its size |
| Review.LabelWithoutNumberSkipped | tdd-automation/design/02-run-design-spec.js:271-277 | a first `점수:` without a number is passed over, and a later label's number is read |
| Review.BoldScoreReadsZero | tdd-automation/design/02-run-design-spec.js:271 | a score in the bold form the prompt asks for (`**점수:** n`) reads as 0 |
| Review.WellDone | tdd-automation/design/02-run-design-spec.js:272-280 | without a `잘한 점:` label the note is the not-found text |
| Review.WellDoneFromSection | tdd-automation/design/02-run-design-spec.js:273 | when the lazy expression matches first at the label's position (`Review.WellDoneSectionAt`: the label with a `\n###` somewhere after it), the note is its trimmed group (`Review.WellDoneSection`: from the end of the label's white space to the next `\n###`, or empty when `\s*` has to give back the line break) |
| Review.WellDoneFromRest | tdd-automation/design/02-run-design-spec.js:274 | when no `\n###` follows the first label, the fallback expression gives the trimmed rest of the block |
| Review.WellDoneBeforeBreak | tdd-automation/design/02-run-design-spec.js:273 | when a `\n###` follows the first label with something other than white space between them, the note is exactly what lies between, trimmed |
| Review.WellDoneStopsAtSection | tdd-automation/design/02-run-design-spec.js:273 | a note that is not blank ends at the first `\n###` after the first label, and is trimmed |
| Review.WellDoneRunsToEnd | tdd-automation/design/02-run-design-spec.js:274 | with no `\n###` after the label, the note is the trimmed rest of the block |
| Review.WellDoneEmptySection | tdd-automation/design/02-run-design-spec.js:273 | a `\n###` right after the label gives an empty note, because `\s*` hands the line break back |
| Review.BlankNoteTakesNextHeading | tdd-automation/design/02-run-design-spec.js:273 | a blank note followed by a heading and a second `\n###` gives the heading line as the note |
| Review.NeedsImprovement | tdd-automation/design/02-run-design-spec.js:275-283 | without a `고려하지 못한 점:` label the note is the not-found text |
| Review.NeedsImprovementReadsRest | tdd-automation/design/02-run-design-spec.js:275-283 | the note is the trimmed text after the first label, to the end of the block |
| Review.ReviewOf | tdd-automation/design/02-run-design-spec.js:270-284 | an absent or empty review part keeps the defaults (0, `N/A`, `N/A`); a non-empty one without the gaps label gives the not-found text for that note |
| Review.ScoreOnlyReview | tdd-automation/design/02-run-design-spec.js:270-284 | a review holding only a score gives that score and the not-found text for both notes |
| Fence.LowerAscii | tdd-automation/design/02-run-design-spec.js:288 | the `i` flag without `u` folds only ASCII capitals onto lower case |
| Fence.TagEnd | tdd-automation/design/02-run-design-spec.js:288 | `(markdown)?` consumes the tag, in any letter case (`Fence.IsMarkdownTag`, folded by `Fence.LowerAscii`), exactly when it is there |
| Fence.OpenFenceEnd | tdd-automation/design/02-run-design-spec.js:288 | the opener matches at p (`Fence.OpenFenceAt`) exactly when p starts a line (`Fence.AtLineStart`: the multiline `^`, at 0 or after a line terminator) with a fence and the white-space run after the optional tag holds a `\r` or `\n`; the match ends just after the last of them |
| Fence.StripOpenFence | tdd-automation/design/02-run-design-spec.js:288 | the text never grows, and is unchanged when no opener matches, in particular when it holds no fence |
| Fence.OpenerNeedsBreak | tdd-automation/design/02-run-design-spec.js:288 | a fence whose optional tag is followed by a character that is not white space is no opener |
| Fence.OpenerSkipsTrailingBlanks | tdd-automation/design/02-run-design-spec.js:288 | blanks between the fence and the line break are removed with the opener |
| Fence.CloseFenceEnd | tdd-automation/design/02-run-design-spec.js:289 | the closer matches at p (`Fence.CloseFenceAt`) exactly when a fence is there and the white space after it runs to the end of the text or holds a line terminator; the match ends at the end of the text in the first case, otherwise before the last line terminator of that white space |
| Fence.StripCloseFence | tdd-automation/design/02-run-design-spec.js:289 | the text never grows, and is unchanged when no closer matches anywhere (the search for the first one is `Strings.Leftmost`), in particular when it holds no fence |
| Fence.CloserNeedsSpace | tdd-automation/design/02-run-design-spec.js:289 | a fence followed by a character that is not white space is no closer |
| Fence.CloserBeforeBreak | tdd-automation/design/02-run-design-spec.js:289 | a fence followed by one line break and a character that is not white space is a closer that keeps the line break |
| Fence.CloserInMiddle | tdd-automation/design/02-run-design-spec.js:289 | after fence-free text, a fence that ends its line is removed even when more text follows |
| Fence.InnerBlockCloserRemoved | tdd-automation/design/02-run-design-spec.js:289 | in a reply that goes on after a block tagged with another language, the block's own closing fence is the one removed |
| Fence.CleanText | tdd-automation/design/02-run-design-spec.js:287-290 | the cleaned text is no longer than the input, and neither starts nor ends with white space |
| Fence.FencedBlockUnwrapped | tdd-automation/design/02-run-design-spec.js:287-290 | a block fenced by a bare triple-backtick line or one tagged `markdown` (any case), after lines free of fences, loses both fence lines and keeps the lines before it |
| Fence.OtherTagKept | tdd-automation/design/02-run-design-spec.js:287-290 | a block tagged with any language other than `markdown` (in any letter case) keeps its opening line and loses only its closing fence |
| Fence.FenceAtEnd | tdd-automation/design/02-run-design-spec.js:288-289 | a fence that ends the text is never an opener, and is always a closer |
| Strings.Trim | tdd-automation/design/02-run-design-spec.js:290 | the trimmed text is no longer than the input, and neither starts nor ends with white space (`Strings.IsSpace`: the white space and line terminators that `trim` and `\s` share) |
| Strings.TrimIsInfix | tdd-automation/design/02-run-design-spec.js:290 | the trimmed text is the input with only white space removed before and after it |
| Strings.TrimUnique | tdd-automation/design/02-run-design-spec.js:290 | white space around a core that has no white space at its ends trims to exactly that core |
| Strings.TrimIdempotent | tdd-automation/design/02-run-design-spec.js:290 | trimming twice is trimming once |
| Strings.TrimAfterSpaces | tdd-automation/design/02-run-design-spec.js:290 | leading white space never changes the trimmed text |
| Strings.TrimBeforeSpaces | tdd-automation/design/02-run-design-spec.js:290 | trailing white space never changes the trimmed text |
| Strings.Decimal | tdd-automation/design/02-run-design-spec.js:323 | a printed number is a non-empty run of decimal digits |
| Strings.DecimalRoundTrip | tdd-automation/design/02-run-design-spec.js:277 | `parseInt` of a printed number (`Strings.DigitsValue` of `Strings.Decimal`) gives the number back |
| Runner.ChecklistItems | tdd-automation/design/02-run-design-spec.js:318-324 | the checklist has five lines; the fourth names the output path; the fifth is the score prefix, a run of digits and the `/10점` suffix |
| Runner.ChecklistScoreReadsBack | tdd-automation/design/02-run-design-spec.js:323 | the digits in the score line read back as the recorded rating |
| Runner.SelfReviewOutput.constructor | tdd-automation/design/02-run-design-spec.js:240 | the record starts as rating 0 and `N/A` for both notes |
| Runner.SelfReviewOutput.Record | tdd-automation/design/02-run-design-spec.js:270-284 | a non-empty review part overwrites all three fields with what is extracted from it; an absent or empty one leaves them unchanged |
| Runner.RunCreateSpecification | tdd-automation/design/02-run-design-spec.js:235-333 | the run ends with status 1 and records nothing exactly when reading the context fails; otherwise success holds exactly when the agent replies and the file is written, the exit status is 0 on success and 1 on failure, the review fields are the extraction from the reply's review part (the defaults when the agent failed), the checklist carries the recorded rating, and the cleaned specification is written exactly on success |

## Left out

- `runAgent` is a parameter: a function from the project context to a reply or a
  thrown error. The system prompt, the fixed feature description and the user's
  answers are constant text around the context, and they are not modelled.
- `saveAgentChecklist` is in `tdd-automation/core/checklistUtils.js`, which is
  not part of this model. The run returns the results and the checklist it is
  given instead. A throw from it inside `finally` is not modelled.
- File-system effects are not modelled as effects. The read outcome of each path
  is a parameter. Creating the log directory and writing the file are folded
  into one `writeSucceeds` flag. The written text is returned.
- Console logging, `async`/`await` scheduling and `fileURLToPath` are left out.
  They do not change any value the step computes.
- The file listing in `getProjectContext` is a long constant. It is a parameter
  here.
- `path.relative(process.cwd(), outputFilePath)` is the output path itself,
  because `outputFilePath` is relative and both arguments resolve against the
  same working directory.
- Context.ReadAll: reads and lays out each file in turn. The script reads all
  six first and then fills in the template. Both end at the first failed read,
  and both give the same text.
- Review.Rating: reads the digits exactly, and does not model `parseInt`
  losing precision above 2^53, nor a digit run long enough to read as
  `Infinity`.
- Strings.Decimal: gives the digits of any natural number. JavaScript prints a
  number of 10^21 or more in exponent form (`1e+21`), which is not modelled.
- Strings.DecimalRoundTrip: holds for every natural number. In JavaScript,
  `parseInt` of a printed number of 10^21 or more stops at the `e` and gives
  back its leading digit, which is not modelled.
- Runner.ChecklistItems: the score line holds a digit run for every rating.
  For a rating of 10^21 or more, JavaScript prints the exponent form instead.
- Runner.ChecklistScoreReadsBack: holds for every rating. It does not hold in
  JavaScript from 10^21 on, for the reason above.
- Strings are sequences of characters. JavaScript's UTF-16 code units are not
  modelled, so a character outside the Basic Multilingual Plane counts as one.
- The `i` flag on the four review expressions is not modelled. Their labels
  are Hangul and have no letter case, so the flag changes nothing.

