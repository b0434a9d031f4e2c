# misc-code toolbox: a verified model

This project models the computational core of several independent scripts from the
misc-code toolbox, with the I/O around them stripped off, and proves what they promise.

- **sitelen-kasa converter** (`extension.ts`):
  - `deepReplace`: back-reference renumbering, the ESC-parity guard, and rewriting to a fixpoint.
  - `escapeRegex`.
  - `internalEscape`.
  - `inlineEscape`: the backtick/dollar escape-point scanner.
  - `chompMetadata`: the brace and string scanner.
  - Modules: `Escapes`, `DeepReplace`, `Metadata`.
- **table formatter** (`table-formatter.rb`):
  - greedy word wrapping (`num_lines`, `split_lines`);
  - the width vectors: the hill-climbing step, the lines map, offset enumeration and filtering, squishing, minimizing.
  - Modules: `TableFormatter`, `TableWidths`.
- **HHMM time accumulator** (`time.rb`): a class with the two fields and the `add`, `subtract` and `adds` operations. Module `HhmmTime`.
- **Catalan scripts** (`catalan_numbers.py`): compositions, the boxes product, the path count and the summation formula. Module `Catalan`.
- **portmanteau helpers** (`portmanteau.py`):
  - `find_const` and `find_main`;
  - the `alt_dict` built from `alt_sets`;
  - the `write_ports` candidate loops;
  - stress-mark stripping and `read_sound_list`'s recording.
  - Modules: `Portmanteau`, `ClusterGroups`.
- **sitemap finder** (`find_sitemaps.rb`):
  - `insert_char` and `replace_char` with Ruby's nil slices;
  - `add_2s`, `increment_number`, `test_numbered_sitemaps` and `test_sitemaps`;
  - page existence is an oracle parameter `live`.
  - Module: `FindSitemaps`.
- **category combiners** (`combine_categories.rb`, `combine_categories.py`): the id chunking, the stock tallies and the output rows. Modules: `CategoryIds`, `CombineCategoriesRb`, `CombineCategoriesPy`.
- **CSV appender** (`combine_csv.rb`): the first-column filter. Module: `CombineCsv`.
- **AutoHotkey/JSON converters** (`json_to_ahk.rb`, `ahk_to_json.rb`):
  - the key maps, `invert_json` and the generated hotkey text;
  - the section state machine of `ahk_to_json.rb`'s main loop;
  - a round-trip theorem: reading back a written section restores its block.
  - Modules: `JsonToAhk`, `AhkToJson`, `AhkRoundTrip`.

Shared helpers:
- `Wrappers`: Option.
- `Decimal`: decimal text of integers.
- `Strings`: split, join, search and replace.
- `OrderedHash`: an insertion-ordered hash as an association list, which is how Ruby and Python order their hashes and dicts.

Conventions:
- A Ruby or Python exception is modelled as `None`.
- A loop that the source runs forever is either excluded by a precondition that names the reason, or modelled as `None`.
- Where the code is wrong, the model keeps the code as written and adds the evidently intended version. The rest of the model uses the intended version (see "## Findings").

## Model

| member | source | states |
|---|---|---|
| Escapes.EscapeRegex | JavaScript/sitelen-kasa/src/extension.ts:195-197 | the result is a regex-literal text (every special character backslash-escaped) no shorter than the input |
| Escapes.UnescapeEscapeRegex | JavaScript/sitelen-kasa/src/extension.ts:196 | dropping the inserted backslashes gives the input back: each regex special character gains exactly one backslash, every other character is kept |
| Escapes.EscapeRegexPlain | JavaScript/sitelen-kasa/src/extension.ts:196 | a text without special characters is returned unchanged |
| Escapes.RunFrom | JavaScript/sitelen-kasa/src/extension.ts:204 | the length of the maximal run of the delimiter starting at an index |
| Escapes.FirstSpan | JavaScript/sitelen-kasa/src/extension.ts:203-205 | the first index at which the outer pattern ESC d+ ESC (at least two delimiters) matches, None iff it matches nowhere |
| Escapes.InternalEscapeAsWritten | JavaScript/sitelen-kasa/src/extension.ts:199-218 | as written: raises (None) exactly when some span matches, because the inner RegExp lacks the g flag that matchAll demands; otherwise the content is unchanged |
| Escapes.InnerRewrite | JavaScript/sitelen-kasa/src/extension.ts:207-213 | defines the inner loop's rewrite of one span with the g flag; InnerRewriteMarks and InnerRewriteKeeps state how each backslash run is rewritten, InnerRewriteOccurrences and InnerRewriteUnchanged what it keeps |
| Escapes.InnerRewriteOccurrences | JavaScript/sitelen-kasa/src/extension.ts:207-213 | rewriting the inner backslash runs keeps every occurrence of the delimiter, so the span still ends where the outer loop found it |
| Escapes.InnerRewriteUnchanged | JavaScript/sitelen-kasa/src/extension.ts:207-213 | a span with no backslash comes out of the inner loop unchanged |
| Escapes.InnerRewriteMarks | JavaScript/sitelen-kasa/src/extension.ts:208-212 | a run of two or more backslashes right before the delimiter becomes half as many backslashes, ESC, ESC and the delimiter, and the rewrite goes on after it |
| Escapes.InnerRewriteKeeps | JavaScript/sitelen-kasa/src/extension.ts:208 | a run of backslashes that the pattern does not match (one backslash, or a run not followed by the delimiter) is copied unchanged, and the rewrite goes on after it |
| Strings.ReplaceFirstWhole | JavaScript/sitelen-kasa/src/extension.ts:214 | a literal replace of a span that is the whole content replaces all of it |
| Strings.ReplaceFirstExpanded | JavaScript/sitelen-kasa/src/extension.ts:214 | defines `content.replace(match[0], matchCopy)`: the first occurrence replaced, the replacement's `$` patterns expanded; ReplaceFirstExpandedLiteral and DollarSpanCollapses state its effect |
| Strings.ReplaceFirstExpandedLiteral | JavaScript/sitelen-kasa/src/extension.ts:214 | a replacement without `$` is inserted literally |
| Escapes.OuterFrom | JavaScript/sitelen-kasa/src/extension.ts:202-215 | defines the content the outer loop builds from the spans at or after an index; InternalEscape computes it, SpanKept and DollarSpanCollapses state what it does to a span |
| Escapes.SpanKept | JavaScript/sitelen-kasa/src/extension.ts:204-214 | a span of the written pattern holds no backslash, so it is its own inner rewrite; without a `$` in it, the outer replace leaves the content as it is |
| Escapes.InternalEscape | JavaScript/sitelen-kasa/src/extension.ts:199-218 | with the g flag, the loop computes OuterFrom: each span of the written pattern is replaced by its inner rewrite read as a replacement string; for every delimiter other than `$` (so for the backtick caller at line 99) the content comes back unchanged |
| Escapes.DollarSpanCollapses | JavaScript/sitelen-kasa/src/extension.ts:214 | with the `$` delimiter of the call at line 100, the span ESC $ $ ESC is its own inner rewrite, but the outer replace reads `$$` as one dollar and writes back ESC $ ESC |
| Escapes.CloseFrom | JavaScript/sitelen-kasa/src/extension.ts:204 | the first delimiter followed by ESC at or after an index, None iff there is none |
| Escapes.IntendedSpanEnd | JavaScript/sitelen-kasa/src/extension.ts:204 | with the class `[^d]`, the outer pattern matches at i iff ESC and a delimiter open it and some delimiter followed by ESC comes later; the match ends just past the first such pair |
| Escapes.InternalEscapeIntended | JavaScript/sitelen-kasa/src/extension.ts:199-218 | as evidently intended (the g flag, the class `[^d]`, and each rewritten span inserted literally), the loop keeps the number of delimiters, returns content without backslashes unchanged, and when the content is one whole span returns its InnerRewrite (each run of two or more backslashes before the delimiter marked with ESC ESC) |
| Strings.ReplaceFirstOccurrences | JavaScript/sitelen-kasa/src/extension.ts:214 | `content.replace(match, copy)` keeps the count of a character when the copy holds as many of it as the match |
| Escapes.EscapedDelimiterMissed | JavaScript/sitelen-kasa/src/extension.ts:204 | on the code span ESC, backtick, two backslashes, two backticks, ESC, the written pattern matches nowhere, while the intended one matches the whole span and its rewrite differs from it |
| Escapes.CodeSpanRewrite | JavaScript/sitelen-kasa/src/extension.ts:208-212 | in that span the escaped backtick becomes one backslash, ESC, ESC and the backtick |
| Escapes.OpenAfter | JavaScript/sitelen-kasa/src/extension.ts:229-245 | the open inline delimiter after a prefix of the line is a backtick or a dollar |
| Escapes.Points | JavaScript/sitelen-kasa/src/extension.ts:228-246 | defines the escape points after scanning a prefix of the line; PointsAlternate, EscapePoints, InsertAllMarked and NoDelimiterNoPoints state where they fall |
| Escapes.PointsAlternate | JavaScript/sitelen-kasa/src/extension.ts:235-243 | the number of escape points is even exactly when no inline span is open |
| Escapes.EscapePoints | JavaScript/sitelen-kasa/src/extension.ts:228-246 | the scanning loop computes the escape points of the whole line |
| Escapes.InsertEsc | JavaScript/sitelen-kasa/src/extension.ts:251 | inserting one ESC lengthens the line by one |
| Escapes.InsertAll | JavaScript/sitelen-kasa/src/extension.ts:250-253 | the reduce lengthens the line by the number of points |
| Escapes.MarkedLength | JavaScript/sitelen-kasa/src/extension.ts:237-241 | the marked prefix is the prefix plus one ESC per point |
| Escapes.InsertAllMarked | JavaScript/sitelen-kasa/src/extension.ts:237-253 | inserting at the recorded indices (shifted by the points already inserted) puts an ESC before each opener and after each closer |
| Escapes.NoDelimiterNoPoints | JavaScript/sitelen-kasa/src/extension.ts:235-243 | a line without backtick or dollar gets no escape point and leaves no span open |
| Escapes.EscapeLines | JavaScript/sitelen-kasa/src/extension.ts:221-227 | each line is rewritten on its own, and the number of lines is kept |
| Escapes.EscapeLine | JavaScript/sitelen-kasa/src/extension.ts:220-254 | defines the escaped form of one line (lines starting with ESC skipped, an ESC inserted at each escape point); InsertAllMarked states where the ESCs go, InlineEscape and RewriteLine apply it to every line |
| Escapes.InlineEscape | JavaScript/sitelen-kasa/src/extension.ts:220-258 | the loop over lines returns the content with every line replaced by its escaped form |
| Escapes.RewriteLine | JavaScript/sitelen-kasa/src/extension.ts:223-254 | one line: a carriage return removed, lines starting with ESC left alone, otherwise the escape points inserted |
| Escapes.InlineEscapePlain | JavaScript/sitelen-kasa/src/extension.ts:220-258 | content without backtick or dollar comes back unchanged |
| Escapes.EscapeLineAsWritten | JavaScript/sitelen-kasa/src/extension.ts:248-254 | defines the line as `content.replace` writes it back, with `$` patterns in the new line expanded; AsWrittenWithoutDollar and DoubleDollarCollapses state when it agrees with EscapeLine and when it does not |
| Escapes.AsWrittenWithoutDollar | JavaScript/sitelen-kasa/src/extension.ts:248-254 | as written, the replacement string is expanded by String.prototype.replace; without a dollar that changes nothing |
| Escapes.MarkedChars | JavaScript/sitelen-kasa/src/extension.ts:250-253 | the escaped line holds only the line's own characters and ESC |
| Escapes.DoubleDollarCollapses | JavaScript/sitelen-kasa/src/extension.ts:248-254 | the line `$$` should become ESC$$ESC, but as written `$$` in the replacement collapses to one dollar |
| Metadata.BlankRun | JavaScript/sitelen-kasa/src/extension.ts:440 | the maximal run of leading spaces, carriage returns and line feeds |
| Metadata.StripBeforeBrace | JavaScript/sitelen-kasa/src/extension.ts:440 | leading blanks are removed only when a `{` follows them; the result is a suffix of the input |
| Metadata.CloseFrom | JavaScript/sitelen-kasa/src/extension.ts:446-467 | the first index at which the nesting count reaches zero, None iff it never does |
| Metadata.Chomped | JavaScript/sitelen-kasa/src/extension.ts:439-471 | defines what chompMetadata returns, None where its loop never ends; ChompedSuffix, ChompFlat, ChompQuotedBraces, ChompEscapedQuote, ChompNoMetadata and ChompUnclosed state its cases |
| Metadata.ChompedSuffix | JavaScript/sitelen-kasa/src/extension.ts:439-471 | the content after the metadata object is a suffix of the content |
| Metadata.ChompMetadata | JavaScript/sitelen-kasa/src/extension.ts:439-471 | the while loop computes Chomped (None where the source loops forever on unbalanced braces) |
| Metadata.ScanPlain | JavaScript/sitelen-kasa/src/extension.ts:455-464 | characters other than braces and quotes change neither nesting nor string state |
| Metadata.ChompFlat | JavaScript/sitelen-kasa/src/extension.ts:439-471 | a flat object `{...}` is removed exactly, leaving what follows it |
| Metadata.ScanInString | JavaScript/sitelen-kasa/src/extension.ts:447-453 | inside a string, characters other than quote and backslash change nothing |
| Metadata.ChompQuotedBraces | JavaScript/sitelen-kasa/src/extension.ts:447-464 | braces inside a quoted string do not count towards nesting |
| Metadata.ChompEscapedQuote | JavaScript/sitelen-kasa/src/extension.ts:448-451 | a backslash-escaped quote does not end the string |
| Metadata.ChompNoMetadata | JavaScript/sitelen-kasa/src/extension.ts:441 | content whose leading spaces, CRs and LFs are not followed by `{`, the empty content included, is returned unchanged |
| Metadata.ChompUnclosed | JavaScript/sitelen-kasa/src/extension.ts:446 | an object that never closes is None: the source loop does not terminate |
| DeepReplace.EscapeGroupsEven | JavaScript/sitelen-kasa/src/extension.ts:7 | a text matched by the repeated group of ESCAPE_REGEX holds an even number of ESC |
| DeepReplace.EvenEscapeGroups | JavaScript/sitelen-kasa/src/extension.ts:7 | conversely, a text starting with ESC (or empty) with an even number of ESC is matched by the repeated group |
| DeepReplace.EscapeRegexLanguage | JavaScript/sitelen-kasa/src/extension.ts:7 | ESCAPE_REGEX matches a whole text exactly when it holds an even number of ESC |
| DeepReplace.AnchoredMatchUnescaped | JavaScript/sitelen-kasa/src/extension.ts:175-178 | in a document whose lines close their spans, the text handed to the rule by the anchored pattern starts and ends outside every escape span |
| DeepReplace.LineStartEven | JavaScript/sitelen-kasa/src/extension.ts:178 | in such a document an even number of ESC precede every line start |
| DeepReplace.Ref | JavaScript/sitelen-kasa/src/extension.ts:180 | the reference text `$d` is a dollar followed by the digit d |
| DeepReplace.RenumberStep | JavaScript/sitelen-kasa/src/extension.ts:180 | one iteration of the loop (the first `$i` becomes `$(i+1)`) turns the text with the first references above i bumped into the text with those above i-1 bumped |
| DeepReplace.RenumberFromUnfold | JavaScript/sitelen-kasa/src/extension.ts:180 | the loop from i is one replacement followed by the loop from i-1 |
| DeepReplace.RenumberChain | JavaScript/sitelen-kasa/src/extension.ts:180 | chaining the seven iterations composes their effects |
| DeepReplace.RenumberFirstRefs | JavaScript/sitelen-kasa/src/extension.ts:180 | defines the seven `replace` calls of the loop, from `$7` down to `$1`; RenumberFirstRefsSpec and RenumberRepeatedRef state that only the first occurrence of each reference is raised |
| DeepReplace.RenumberFirstRefsSpec | JavaScript/sitelen-kasa/src/extension.ts:180 | the loop raises the digit of exactly the first occurrence of each `$1` .. `$7`, so no reference is bumped twice |
| DeepReplace.RenumberRepeatedRef | JavaScript/sitelen-kasa/src/extension.ts:180 | as written, `$1$1` is renumbered to `$2$1`: the second reference keeps pointing at the new first group |
| DeepReplace.RepeatedRefBumped | JavaScript/sitelen-kasa/src/extension.ts:180 | the first-occurrence specification gives the same `$2$1` |
| DeepReplace.RenumberEveryRef | JavaScript/sitelen-kasa/src/extension.ts:179 | as the comment intends: every reference `$1` .. `$7` is raised by one and every other character is kept |
| DeepReplace.RenumberFreesGroupOne | JavaScript/sitelen-kasa/src/extension.ts:179-185 | after renumbering no `$1` is left, so the new first group is free for the prefix |
| DeepReplace.MaxDollarDigit | JavaScript/sitelen-kasa/src/extension.ts:188 | the largest digit following a dollar, None when there is none |
| DeepReplace.SuffixGroup | JavaScript/sitelen-kasa/src/extension.ts:185-188 | the suffix group is one more than every digit after a dollar and equal to one more than some such digit, or 2 when there is none |
| DeepReplace.TemplateAsWritten | JavaScript/sitelen-kasa/src/extension.ts:179-188 | defines the replacement as written: `$1`, the renumbered text, `$` and the added last group; TemplateRepeatedRef shows it sending a repeated reference to two different groups |
| DeepReplace.Template | JavaScript/sitelen-kasa/src/extension.ts:179-188 | defines the replacement with every reference renumbered; TemplateRepeatedRef shows a repeated reference staying on one group, and DeepReplace rewrites with it |
| DeepReplace.TemplateRepeatedRef | JavaScript/sitelen-kasa/src/extension.ts:179-188 | for the template `$1$1`, the replacement as written is `$1$2$1$3` while the intended one is `$1$2$2$3` |
| DeepReplace.Fixpoint | JavaScript/sitelen-kasa/src/extension.ts:189-191 | the rewriting ends in a text the pattern no longer matches, and a text it never matched is returned unchanged |
| DeepReplace.DeepReplace | JavaScript/sitelen-kasa/src/extension.ts:174-193 | the loop returns the fixpoint of the rewrite under the renumbered template: the pattern no longer matches, and an unmatched input is returned as is |
| TableFormatter.WordRun | Ruby/table-formatter.rb:99 | the length of the leading run of non-blank characters: none of them blank, and the run ends at a blank or at the end |
| TableFormatter.Words | Ruby/table-formatter.rb:99 | `split(" ")` yields only non-empty words without blanks |
| TableFormatter.CostCons | Ruby/table-formatter.rb:103-104 | the width a line of words uses (each word plus one space) is additive |
| TableFormatter.TakeFrom | Ruby/table-formatter.rb:103-105 | the longest run of words, at least k, that fits a line: it fits and one more word would not |
| TableFormatter.Take | Ruby/table-formatter.rb:103-109 | the words of the next line: at least one, they fit, and one more would not |
| TableFormatter.Greedy | Ruby/table-formatter.rb:102-110 | greedy wrapping gives non-empty lines that each fit the width |
| TableFormatter.GreedyPartition | Ruby/table-formatter.rb:102-110 | the wrapped lines, concatenated, are exactly the words in order |
| TableFormatter.GreedyMaximal | Ruby/table-formatter.rb:103-108 | no line could have taken the first word of the next line |
| TableFormatter.LineCount | Ruby/table-formatter.rb:98-112 | the number of lines of a greedy wrap, at least 1 |
| TableFormatter.NumLines | Ruby/table-formatter.rb:98-112 | num_lines's loop returns the number of lines of the greedy wrap when every word fits the width |
| TableFormatter.GreedyFewerLines | Ruby/table-formatter.rb:98-112 | the greedy wrapping takes no more lines at a wider width |
| TableFormatter.LineCountFewer | Ruby/table-formatter.rb:98-112 | the number of lines a cell wraps to never grows when its column gets wider |
| TableFormatter.LongWordNeverPlaced | Ruby/table-formatter.rb:102-110 | a word longer than the width stays in the word list after any number of iterations, so num_lines and split_lines never return |
| TableFormatter.Pad | Ruby/table-formatter.rb:188 | `ljust(width)` keeps the text and fills with spaces to exactly the width |
| TableFormatter.SpacedJoin | Ruby/table-formatter.rb:185-188 | dropping the last character of the accumulated `word ` text gives the words joined by single spaces |
| TableFormatter.JoinCost | Ruby/table-formatter.rb:182-188 | the joined line is one character shorter than the width the loop counted for it |
| TableFormatter.Rendered | Ruby/table-formatter.rb:188 | one padded text per wrapped line |
| TableFormatter.WrappedCell | Ruby/table-formatter.rb:177-194 | defines what split_lines returns, None for a cell without words; WrappedCellShape and SplitLines state its lines |
| TableFormatter.WrappedCellShape | Ruby/table-formatter.rb:177-194 | split_lines's result is nil exactly for a cell without words; otherwise it has LineCount lines, each exactly `width` long |
| TableFormatter.SplitLines | Ruby/table-formatter.rb:177-194 | split_lines's loop returns the greedy wrap with each line joined and padded, nil for a cell without words |
| TableWidths.SumUpdate | Ruby/table-formatter.rb:88-92 | changing one width changes the total by the difference |
| TableWidths.BoundedFits | Ruby/table-formatter.rb:227 | widths at least the longest word of each column let every cell wrap |
| TableWidths.ColumnLines | Ruby/table-formatter.rb:63 | the lines of a column summed over rows, at least one per row |
| TableWidths.AllLines | Ruby/table-formatter.rb:62-64 | one total per column, each at least the number of rows |
| TableWidths.CellLines | Ruby/table-formatter.rb:133 | `row.map.with_index`: one entry per cell, the cell's line count at its column's width |
| TableWidths.MaxOf | Ruby/table-formatter.rb:133 | `max` of a non-empty array: no entry is larger, and it is one of the entries |
| TableWidths.RowLines | Ruby/table-formatter.rb:133 | the height of a row is the largest line count among its cells: no cell takes more, and some cell takes exactly that many |
| TableWidths.ActualLength | Ruby/table-formatter.rb:132-135 | defines actual_length, each row as tall as its tallest cell; ActualLengthBounds and ActualLengthFewer state its bounds and that it never grows with wider columns |
| TableWidths.ActualLengthBounds | Ruby/table-formatter.rb:132-135 | the table is at least as long as any single column's line total, and so at least one line per row |
| TableWidths.RowLinesFewer | Ruby/table-formatter.rb:133 | a row is never taller when every column is at least as wide |
| TableWidths.ActualLengthFewer | Ruby/table-formatter.rb:132-135 | the table is never longer when every column is at least as wide |
| TableWidths.AdjustWidths | Ruby/table-formatter.rb:88-93 | a copy in which the narrowed column loses one and the widened one gains one; the total and every other column are unchanged |
| TableWidths.SquishColumn | Ruby/table-formatter.rb:199-203 | a copy in which one column loses one; every other column is unchanged and the total drops by one |
| TableWidths.ToLinesMap | Ruby/table-formatter.rb:53-57 | defines to_lines_map as intended, over the columns that can still give a character; ToLinesMapGet and ToLinesMapEligible state its entries |
| TableWidths.ToLinesMapGet | Ruby/table-formatter.rb:53-57 | as intended: a line count maps to the last eligible column with that count, and is absent when no eligible column has it |
| TableWidths.ToLinesMapEligible | Ruby/table-formatter.rb:53-57 | every column the intended map names is still wider than its longest word |
| TableWidths.ToLinesMapAsWritten | Ruby/table-formatter.rb:53-57 | defines to_lines_map as written, with indices counted after the rejected columns; AsWrittenAgreesWhenAllEligible and ToLinesMapShiftsIndices compare it with ToLinesMap |
| TableWidths.AsWrittenAgreesWhenAllEligible | Ruby/table-formatter.rb:53-57 | when every column is eligible, numbering the filtered list gives the same map as the intended one |
| TableWidths.ToLinesMapShiftsIndices | Ruby/table-formatter.rb:54-55 | as written, once a column is filtered out the later columns are numbered by their filtered position, not their index |
| TableWidths.MinEntry | Ruby/table-formatter.rb:72 | the position of the smallest key of a non-empty hash |
| TableWidths.MaxEntry | Ruby/table-formatter.rb:73 | the position of the largest key of a non-empty hash |
| TableWidths.ClimbHill | Ruby/table-formatter.rb:69-83 | hill climbing keeps every column at least as wide as its longest word and keeps the total width |
| TableWidths.InitialWidths | Ruby/table-formatter.rb:40-41 | the starting widths share out LINE_WIDTH - 1 - 3n: equal shares, the remainder added to the first column |
| TableWidths.SumConstant | Ruby/table-formatter.rb:40 | n equal widths c total n * c |
| TableWidths.FindBallparkWidths | Ruby/table-formatter.rb:38-48 | the ballpark widths fit every longest word and total LINE_WIDTH - 1 - 3n |
| TableWidths.IntLog | Ruby/table-formatter.rb:141 | `Math.log(x, b).floor` on integers: the largest e with b^e <= x |
| TableWidths.ExtendMembers | Ruby/table-formatter.rb:143-145 | one reduce step's result holds exactly the old vectors extended by a value in [lo, hi] |
| TableWidths.GenerateOffsets | Ruby/table-formatter.rb:140-147 | defines generate_offsets with the integer logarithm; OffsetsMembers and OffsetsCount state which offset vectors it holds and how many |
| TableWidths.OffsetsMembers | Ruby/table-formatter.rb:140-147 | generate_offsets holds exactly the length-n vectors with entries in [-r, r] |
| TableWidths.OffsetsCount | Ruby/table-formatter.rb:140-147 | generate_offsets holds (2r+1)^n vectors |
| TableWidths.SumAddVec | Ruby/table-formatter.rb:154 | adding an offset to the widths adds its sum to the total |
| TableWidths.AddValidOffsets | Ruby/table-formatter.rb:152-156 | every kept option fits every longest word and has the same total as the current widths |
| TableWidths.AddValidOffsetsMembers | Ruby/table-formatter.rb:152-156 | the kept options are exactly the zero-sum offsets added to the current widths that fit every longest word |
| TableWidths.TestedGet | Ruby/table-formatter.rb:123-124 | a length in the tested hash maps to an option with that actual length |
| TableWidths.TestedCovers | Ruby/table-formatter.rb:123-124 | every option's actual length is a key of the tested hash |
| TableWidths.WidthOptions | Ruby/table-formatter.rb:119-121 | defines the width vectors search_better_width tries; AddValidOffsetsMembers and OffsetsMembers state which vectors they are |
| TableWidths.SearchBetterWidth | Ruby/table-formatter.rb:117-126 | defines search_better_width, None where the source fails; SearchBetterWidthMinimal and SearchBetterWidthBest state that it picks a shortest option |
| TableWidths.SearchBetterWidthMinimal | Ruby/table-formatter.rb:117-126 | the search returns widths of the same total, fitting every longest word, that make the table no longer than any option `add_valid_offsets(generate_offsets(n), center, …)` yields |
| TableWidths.SearchBetterWidthBest | Ruby/table-formatter.rb:117-126 | with two or more columns the search returns widths of the same total, fitting every longest word, that make the table no longer than the center |
| TableWidths.SquishStep | Ruby/table-formatter.rb:164-168 | one more unit off a column keeps every longest word fitting and leaves the other columns alone |
| TableWidths.NarrowStops | Ruby/table-formatter.rb:164-166 | the inner loop stops at the longest word, or where one unit less would make the table longer |
| TableWidths.TightAfterNarrowing | Ruby/table-formatter.rb:161-170 | once a column is narrowed, no column can lose a unit without making the table longer, and narrowing a later column keeps that |
| TableWidths.TightIsMinimum | Ruby/table-formatter.rb:158-172 | at tight widths each column is the minimum width that does not make the table longer: any narrower width that still fits the longest word makes it longer |
| TableWidths.MinimizeWidths | Ruby/table-formatter.rb:158-172 | minimize_widths only narrows columns, never below their longest word, keeps the table's actual length, and leaves every column tight: one unit less would reach below its longest word or make the table longer (TightIsMinimum: so would any narrower width) |
| TableWidths.NarrowColumn | Ruby/table-formatter.rb:163-169 | the inner loop narrows only column i, never below its longest word, keeps the table's actual length and every other column, and stops with column i tight |
| HhmmTime.Added | Ruby/time.rb:30-34 | after `add`, 0 <= minutes < 60 and the total in minutes grows by 60 * (other div 100) + other mod 100 |
| HhmmTime.SubtractedAsWritten | Ruby/time.rb:37-41 | as written, the minutes stay below 60 but the total drops by the duration less 120 or 240 whenever the minutes borrow |
| HhmmTime.Subtracted | Ruby/time.rb:37-41 | as intended, the minutes stay below 60 and the total drops by exactly the duration |
| HhmmTime.SubtractBorrowAddsHours | Ruby/time.rb:38 | 1:10 minus 20 gives 2:50 as written and 0:50 as intended |
| HhmmTime.SubtractAgreesWithoutBorrow | Ruby/time.rb:38-39 | the written subtract is right exactly when the minutes need no borrow |
| HhmmTime.SubtractUndoesAdd | Ruby/time.rb:30-41 | the corrected subtract undoes add |
| HhmmTime.TimeFromTotal | Ruby/time.rb:31-32 | hours and minutes below 60 are determined by the total in minutes |
| HhmmTime.AddAll | Ruby/time.rb:44-48 | defines what `adds` accumulates from 0:00; AddAllSnoc and AddAllTotal state that it totals the durations |
| HhmmTime.AddAllSnoc | Ruby/time.rb:46 | accumulating one more number is one more add |
| HhmmTime.AddAllTotal | Ruby/time.rb:44-48 | the accumulated time has minutes below 60 and totals the sum of the durations |
| HhmmTime.Render | Ruby/time.rb:56-58 | defines inspect's text; RenderReadsBack states that it reads back as the same time |
| HhmmTime.RenderReadsBack | Ruby/time.rb:56-58 | inspect's text splits at its colon into the hours and two digits of minutes, which read back as the same time |
| HhmmTime.Time.Add | Ruby/time.rb:30-34 | add updates both fields to Added and returns inspect's text |
| HhmmTime.Time.SubtractAsWritten | Ruby/time.rb:37-41 | subtract as written updates the fields to SubtractedAsWritten and returns inspect's text |
| HhmmTime.Time.Subtract | Ruby/time.rb:37-41 | the corrected subtract updates the fields to Subtracted and returns inspect's text |
| HhmmTime.Time.constructor | Ruby/time.rb:23-27 | a new time holds the duration of its start value, with minutes below 60 |
| HhmmTime.Time.Adds | Ruby/time.rb:44-48 | `adds` renders the accumulation of add over the list from 0:00 |
| Catalan.Prefixed | Python/catalan_numbers.py:38-41 | one list per appended list |
| Catalan.PartsSumCons | Python/catalan_numbers.py:38-41 | the parts of [i] + c add up to i plus those of c |
| Catalan.Compositions | Python/catalan_numbers.py:33-42 | defines what get_permutation_lists(n) returns; CompositionsMembers, CompositionsDistinct, CompositionsAscending and CompositionsCount state that it lists every composition of n once |
| Catalan.CompositionsMembers | Python/catalan_numbers.py:33-42 | get_permutation_lists(n) holds exactly the lists of positive parts adding up to n |
| Catalan.FirstsMembers | Python/catalan_numbers.py:37-41 | after the loop has reached i = k, the lists hold exactly the compositions of n whose first part is at most k |
| Catalan.CompositionsDistinct | Python/catalan_numbers.py:33-42 | no composition is listed twice |
| Catalan.FirstsDistinct | Python/catalan_numbers.py:37-41 | no composition is listed twice part way through the loop |
| Catalan.CompositionsAscending | Python/catalan_numbers.py:37-41 | the compositions come grouped by first part, in ascending order |
| Catalan.FirstsAscending | Python/catalan_numbers.py:37-41 | the same for the lists built part way through the loop |
| Catalan.CompositionsCount | Python/catalan_numbers.py:33-42 | there are 2^(n-1) compositions of n >= 1 |
| Catalan.FirstsCount | Python/catalan_numbers.py:37-41 | part way through the loop, 2^(n-1-k) compositions are still to come |
| Catalan.CatalanValues | Python/catalan_numbers.py:45-51 | the recurrence gives 1, 1, 2, 5, 14, 42, 132 for n = 0 to 6 |
| Catalan.CompositionsPositive | Python/catalan_numbers.py:28 | every part is at least 1, so `box - 1` is a valid argument |
| Catalan.WeightCons | Python/catalan_numbers.py:26-28 | a list's product is the count for its first part less one times the product of the rest |
| Catalan.WeightSumAppend | Python/catalan_numbers.py:25-29 | the total over two groups of lists is the sum of their totals |
| Catalan.WeightSumPrefixed | Python/catalan_numbers.py:38-41 | prefixing i to every list multiplies the total by C(i-1) |
| Catalan.BoxesAreCatalan | Python/catalan_numbers.py:21-30 | summing the box products over the compositions of n gives the n-th Catalan number |
| Catalan.FirstsWeigh | Python/catalan_numbers.py:21-42 | the compositions with first part at most k total the first k terms of the Catalan recurrence |
| Catalan.GetPermutationLists | Python/catalan_numbers.py:33-42 | the loops return the compositions of n |
| Catalan.AppendPrefixed | Python/catalan_numbers.py:40-41 | the inner loop appends [i] + each list, in order |
| Catalan.GetTotalForN | Python/catalan_numbers.py:21-30 | get_total_for_n(n) is the n-th Catalan number |
| Catalan.BoxProduct | Python/catalan_numbers.py:26-28 | the inner loop computes the product over the boxes |
| Catalan.PathsAsWritten | Python/catalan_numbers.py:58-64 | defines get_paths_for_n_recursive as written, with no case that counts a finished path; PathsAsWrittenZero states that it is always 0 |
| Catalan.PathsAsWrittenZero | Python/catalan_numbers.py:58-64 | as written, every call returns 0, since no case returns 1 |
| Catalan.Paths | Python/catalan_numbers.py:58-64 | defines the path count with the base case the function evidently needs; PathsExist and PathsAreCatalan state its values |
| Catalan.PathsExist | Python/catalan_numbers.py:58-64 | with the base case, some path exists exactly when the down-steps never need to go below zero |
| Catalan.PathsAreCatalan | Python/catalan_numbers.py:54-64 | with the base case, get_paths_for_n(n) is the n-th Catalan number for n = 0 to 6 |
| Catalan.Summation | Python/catalan_numbers.py:76-84 | the list starts [1, 1] and has one more value for each i from 2 to n |
| Catalan.CoefficientValues | Python/catalan_numbers.py:80-82 | the factorial quotients are the central binomials and the coefficients (2j-1)! / (j! (j-1)!) |
| Catalan.SummationStep | Python/catalan_numbers.py:79-84 | each outer iteration appends the central binomial less the weighted earlier values |
| Catalan.SummationIsCatalan | Python/catalan_numbers.py:76-84 | summation_equation(6) lists the Catalan numbers C(0) .. C(6) |
| Catalan.SummationEquation | Python/catalan_numbers.py:76-84 | the loops build the Summation list |
| Portmanteau.Before | Python/portmanteau.py:143-147 | Python's slice `w[:index]`, negative indices included, is a prefix of w |
| Portmanteau.FindConst | Python/portmanteau.py:142-143 | defines find_const, with Python's negative indices and None for the IndexError; FindConstFirstVowel and FindConstFrom state that it finds the part before the first vowel |
| Portmanteau.FindConstFirstVowel | Python/portmanteau.py:142-143 | find_const(w) is the prefix before the first vowel; it raises IndexError (None) exactly when w has no vowel |
| Portmanteau.FindConstFrom | Python/portmanteau.py:142-143 | from a start past only consonants, find_const still finds the first vowel |
| Portmanteau.VowelHasRunStart | Python/portmanteau.py:146 | a word with a vowel has a vowel that starts a run of vowels |
| Portmanteau.FindMain | Python/portmanteau.py:145-149 | defines find_main with the backward scan it evidently means; FindMainFrom and FindMainLastRun state that it finds the start of the last vowel run |
| Portmanteau.FindMainFrom | Python/portmanteau.py:145-149 | as intended, scanning leftwards finds the last vowel that starts a run of vowels |
| Portmanteau.FindMainLastRun | Python/portmanteau.py:145-149 | as intended, find_main(w) is the prefix before the start of the last run of vowels, and fails exactly when w has no vowel |
| Portmanteau.FindMainAsWritten | Python/portmanteau.py:145-149 | defines find_main as written, falling back to find_const; FindMainAsWrittenFallsBack, FindMainFinalVowel and FindMainPatast state where it goes wrong |
| Portmanteau.FindMainFinalVowel | Python/portmanteau.py:146-147 | a word ending in a single vowel gives the same result as written and as intended |
| Portmanteau.FindMainAsWrittenFallsBack | Python/portmanteau.py:148-149 | as written, a word ending in two consonants falls through to find_const, whose scan goes forwards and wraps from -2 to the front of the word |
| Portmanteau.FindMainPatast | Python/portmanteau.py:145-149 | for "patast" the written code gives "p", the intended one "pat" |
| Portmanteau.AltDict | Python/portmanteau.py:80-82 | defines the dictionary built from the groups, a later group overriding an earlier one; AltDictKeys, AltDictNoSelf, AltDictValue and AltDictSymmetric state its keys and values |
| Portmanteau.AltDictKeys | Python/portmanteau.py:80-82 | alt_dict's keys are exactly the clusters of all the groups |
| Portmanteau.AltDictNoSelf | Python/portmanteau.py:81 | no cluster is its own alternative |
| Portmanteau.AltDictValue | Python/portmanteau.py:81 | for disjoint groups, a cluster maps to the rest of its own group |
| Portmanteau.AltDictSymmetric | Python/portmanteau.py:80-82 | for disjoint groups, b is an alternative of a exactly when a is one of b |
| Portmanteau.AltDictionaryProperties | Python/portmanteau.py:56-82 | the script's alt_dict maps no cluster to itself and its alternatives are symmetric |
| Portmanteau.Candidates | Python/portmanteau.py:132-133 | one first word for each i in range(len(const), len(alt_main) + 1) |
| Portmanteau.CandidatesArePrefixes | Python/portmanteau.py:132-133 | the first words tried are exactly the prefixes of alt_main at least as long as the cluster, longest first |
| Portmanteau.SoundText | Python/portmanteau.py:126-137 | defines the lines one pronunciation adds in write_ports, None where the source raises; SoundTextSkipped, SoundTextNoVowel and SoundTextHasEveryAlternative state its cases |
| Portmanteau.SoundTextSkipped | Python/portmanteau.py:129 | a pronunciation whose leading cluster equals its main part adds no line |
| Portmanteau.SoundTextNoVowel | Python/portmanteau.py:127-143 | a pronunciation without a vowel makes find_const raise, and so write_ports fails |
| Portmanteau.SoundPorts | Python/portmanteau.py:126-136 | one pass of the loop yields exactly the lines `SoundText` gives for that pronunciation, or fails where find_const, find_main or `alt_dict[true_const]` raises |
| Portmanteau.WritePorts | Python/portmanteau.py:123-139 | for any iteration of each alternative set that lists its members exactly once, the loops build the text of all pairs over the pronunciations in insertion order, or fail where find_const, find_main or `alt_dict[true_const]` raises |
| Portmanteau.AlternativesTextAppend | Python/portmanteau.py:130-137 | the lines of the alternatives iterated in two runs are those of the first run followed by those of the second |
| Portmanteau.AlternativesTextSplit | Python/portmanteau.py:130-137 | the alternatives' text is the text of the clusters before a given one, that cluster's own lines, then the text of the clusters after it |
| Portmanteau.SoundTextHasEveryAlternative | Python/portmanteau.py:128-137 | every member of `alt_dict[true_const]` contributes its candidate lines, with the lines of the alternatives iterated before it in front and those of the rest behind |
| Portmanteau.PortsText | Python/portmanteau.py:123-139 | defines the text write_ports writes, pronunciation by pronunciation; PortsStep, PortsStops and WritePorts relate it to the loop |
| Portmanteau.PortsStep | Python/portmanteau.py:126-137 | one more pronunciation appends its lines to the text |
| Portmanteau.PortsStops | Python/portmanteau.py:126-128 | a pronunciation that raises makes the whole of write_ports fail, so nothing is written |
| Portmanteau.AddAlternatives | Python/portmanteau.py:130-137 | the loop over the alternative clusters appends their lines in order |
| Portmanteau.AddCandidates | Python/portmanteau.py:132-137 | the loop over the first words appends the lines of those that are pronunciations |
| Portmanteau.AddBlock | Python/portmanteau.py:135-137 | the nested loops append one `sound1 + sound2` line per pair, in order |
| Portmanteau.Unmarked | Python/portmanteau.py:113-115 | the text without stress and length marks holds no mark |
| Portmanteau.StripMarks | Python/portmanteau.py:113-115 | defines the three `replace` calls of read_sound_list; StripMarksUnmarked and StripMarksIdempotent state that exactly the marks go |
| Portmanteau.StripMarksUnmarked | Python/portmanteau.py:113-115 | the three chained replaces remove exactly the marks and keep every other character in order |
| Portmanteau.StripMarksIdempotent | Python/portmanteau.py:113-115 | stripping marks twice is stripping them once |
| Portmanteau.UnmarkedKeepsClean | Python/portmanteau.py:113-115 | a text without marks is left as is |
| Portmanteau.RecordOneGet | Python/portmanteau.py:118-119 | recording a word appends it to its pronunciation's list, starting one when absent, and changes no other list |
| Portmanteau.RecordSounds | Python/portmanteau.py:112-119 | the loop over the pronunciations of one word records it under each of them with marks stripped |
| Portmanteau.RecordOneLists | Python/portmanteau.py:118-119 | recording keeps every listing and adds the new one |
| Portmanteau.RecordedHasWord | Python/portmanteau.py:112-119 | after recording, the word is listed under each of its stripped pronunciations |
| Portmanteau.RecordedOthers | Python/portmanteau.py:112-119 | the lists of other pronunciations are unchanged |
| ClusterGroups.AltSetsAt | Python/portmanteau.py:56-74 | the groups of alt_sets, in order |
| ClusterGroups.ApartGroups | Python/portmanteau.py:56-74 | any two different groups share no cluster |
| ClusterGroups.AltSetsDisjoint | Python/portmanteau.py:56-74 | alt_sets is pairwise disjoint, so alt_dict loses no cluster to an overwritten key |
| FindSitemaps.Slice | Ruby/find_sitemaps.rb:79-85 | Ruby's `String#slice(start, length)`: nil exactly for a negative length or a start outside -size..size, otherwise at most `length` characters |
| FindSitemaps.FromEnd | Ruby/find_sitemaps.rb:97-111 | `sitemap[-k]`: nil exactly when the name is shorter than k, otherwise the k-th character from the end |
| FindSitemaps.InsertChar | Ruby/find_sitemaps.rb:78-80 | defines insert_char, Ruby's nil slices read as empty; InsertCharInside and InsertCharOutside state the result, DeleteUndoesInsert that delete_char undoes it |
| FindSitemaps.InsertCharInside | Ruby/find_sitemaps.rb:78-80 | inside the string, insert_char puts the text just before the last `back` characters and moves nothing else |
| FindSitemaps.InsertCharOutside | Ruby/find_sitemaps.rb:78-80 | outside the string, the nil slices interpolate as empty: the text is appended, or prefixed to a tail, or stands alone |
| FindSitemaps.ReplaceChar | Ruby/find_sitemaps.rb:83-86 | replace_char succeeds exactly when 1 <= back <= size (a nil slice raises otherwise) and swaps one character for the text |
| FindSitemaps.ReplaceCharAt | Ruby/find_sitemaps.rb:83-86 | the character `back` from the end is replaced by the text and everything else is kept |
| FindSitemaps.DeleteUndoesInsert | Ruby/find_sitemaps.rb:78-86 | deleting the inserted character gives the original name back |
| FindSitemaps.Existing | Ruby/find_sitemaps.rb:106-137 | the filter keeps exactly the pages the oracle says exist |
| FindSitemaps.ExistingAll | Ruby/find_sitemaps.rb:106-137 | nothing is filtered out exactly when every page exists |
| FindSitemaps.Variants | Ruby/find_sitemaps.rb:104-105 | each normalized name gives a `2` and a `02` variant before `.xml` |
| FindSitemaps.DropFifth | Ruby/find_sitemaps.rb:98 | `replace_char(sitemap, 5)` drops the fifth character from the end |
| FindSitemaps.Normalize | Ruby/find_sitemaps.rb:95-103 | as intended, a trailing `1` before `.xml` is dropped, and a `0` before it too; other names are kept |
| FindSitemaps.NormalizeAsWritten | Ruby/find_sitemaps.rb:96-103 | defines the normalisation block of add_2s as written; NormalizeAgrees and NormalizeExamples compare it with Normalize |
| FindSitemaps.NormalizeAgrees | Ruby/find_sitemaps.rb:96-103 | the written block gives nil exactly for a `1` not preceded by `0`, and the intended name otherwise |
| FindSitemaps.NormalizeExamples | Ruby/find_sitemaps.rb:96-103 | "/sitemap1.xml" gives nil as written and "/sitemap.xml" as intended; "/sitemap01.xml" gives "/sitemap.xml" |
| FindSitemaps.NormalizeAll | Ruby/find_sitemaps.rb:96-103 | each name is normalized, in order |
| FindSitemaps.Add2sAsWritten | Ruby/find_sitemaps.rb:94-107 | as written, add_2s raises exactly when some name ends in a `1` not preceded by `0`; otherwise it agrees with the intended add_2s |
| FindSitemaps.Add2s | Ruby/find_sitemaps.rb:94-107 | the names found so far stay in front, followed by exactly the existing `2` and `02` variants |
| FindSitemaps.Add2sRaises | Ruby/find_sitemaps.rb:97-104 | ["/sitemap1.xml"] makes the written add_2s raise, while the intended one finds "/sitemap2.xml" when it exists |
| FindSitemaps.NoTwoDigitNumber | Ruby/find_sitemaps.rb:124 | one character never equals the text of a number outside 0..9 |
| FindSitemaps.Bumped | Ruby/find_sitemaps.rb:111-112 | every listed name comes from a name carrying the number, with the number raised by one, and every name carrying the number has its bumped copy listed |
| FindSitemaps.IncrementNumber | Ruby/find_sitemaps.rb:110-114 | the names so far stay in front; a name is added exactly when it is the bumped copy of a name carrying the number and it exists, so every existing bump is added |
| FindSitemaps.AnyNumberedBelowTen | Ruby/find_sitemaps.rb:124 | the loop only continues while the number is a single digit, so it ends |
| FindSitemaps.NumberFrom | Ruby/find_sitemaps.rb:123-127 | defines the numbering loop of test_numbered_sitemaps from a given number; NumberFromGrows and TestNumberedSitemaps state what it keeps, adds and where it stops |
| FindSitemaps.NumberFromGrows | Ruby/find_sitemaps.rb:123-129 | the numbering loop keeps what it was given in front, adds only names that exist, and stops at a number no name carries |
| FindSitemaps.ProbesOf | Ruby/find_sitemaps.rb:134-136 | three probes per suffix: `/sitemapX.xml`, `/sitemapX1.xml` and `/sitemapX01.xml` |
| FindSitemaps.TestSitemaps | Ruby/find_sitemaps.rb:133-138 | test_sitemaps returns exactly the existing probes |
| FindSitemaps.TestSitemapsAll | Ruby/find_sitemaps.rb:118-138 | all 51 probes are returned exactly when every probe exists, the case test_numbered_sitemaps treats as a site without proper 404s |
| FindSitemaps.TestNumberedSitemaps | Ruby/find_sitemaps.rb:117-130 | with all 51 probes the result is empty; otherwise it fails exactly when add_2s raises, and is add_2s followed by the numbering loop from 2 |
| CategoryIds.RemoveCommas | Ruby/combine_categories.rb:42 | `gsub(',', '')` leaves no comma and never lengthens the text |
| CategoryIds.RemoveCommasKeeps | Ruby/combine_categories.rb:42 | only the commas are removed: every other character keeps its count |
| CategoryIds.RemoveCommasAppend | Ruby/combine_categories.rb:42 | removing commas works piece by piece |
| CategoryIds.RemoveCommasFree | Ruby/combine_categories.rb:42 | a text without commas is kept |
| CategoryIds.Slices | Ruby/combine_categories.rb:43-44 | `each_slice(4)`: all slices have 4 characters except a shorter last one, ceil(n/4) slices in all |
| CategoryIds.SlicesJoin | Ruby/combine_categories.rb:43-45 | the slices, concatenated, give the text back |
| CategoryIds.SlicesAt | Ruby/combine_categories.rb:44 | slice j is the characters 4j up to 4j+4 |
| CategoryIds.Chunks | Ruby/combine_categories.rb:42-45 | the chunks of the id column have 1 to 4 characters and no comma |
| CategoryIds.SlicesAvoid | Ruby/combine_categories.rb:44 | a character absent from the text is absent from every slice |
| CategoryIds.SlicesExample | Ruby/combine_categories.rb:44 | "0123456789" gives "0123", "4567", "89" |
| CategoryIds.Copies | Ruby/combine_categories.rb:46 | a stock status listed once per listing of the id |
| CategoryIds.TallyStep | Ruby/combine_categories.rb:46 | appending one id's stock status adds one copy under that id and nothing under the others |
| Strings.TrimStart | Ruby/combine_categories.rb:45 | `to_i` first skips leading whitespace (with `CombineCategoriesRb.IsSpace`), and `int()` in Python/combine_categories.py:36 strips it (with `CombineCategoriesPy.IsSpace`): what is dropped is all whitespace, and the rest is a suffix starting with none |
| CombineCategoriesRb.LeadingDigits | Ruby/combine_categories.rb:45 | `to_i` reads the longest run of leading digits |
| CombineCategoriesRb.LeadingDigitsAll | Ruby/combine_categories.rb:45 | an all-digit text is read whole |
| CombineCategoriesRb.ToI | Ruby/combine_categories.rb:45 | defines String#to_i; ToIDigits and ToIToString state its value |
| CombineCategoriesRb.ToIDigits | Ruby/combine_categories.rb:45 | `to_i` of an all-digit id is its decimal value |
| CombineCategoriesRb.ToIToString | Ruby/combine_categories.rb:45-70 | `to_i` reads back any integer's decimal text |
| CombineCategoriesRb.HeaderIndex | Ruby/combine_categories.rb:36-37 | `row.index(name)`: the first column holding the name, nil when none does |
| CombineCategoriesRb.RowIds | Ruby/combine_categories.rb:40-45 | a row without the id field lists nothing; otherwise one id per chunk of four characters |
| CombineCategoriesRb.ContributionsSnoc | Ruby/combine_categories.rb:33-47 | one more product row appends its stock status once per listing of the id |
| CombineCategoriesRb.ContributionsNone | Ruby/combine_categories.rb:40 | rows that list no id contribute nothing |
| CombineCategoriesRb.NothingTallied | Ruby/combine_categories.rb:40 | a row whose id field is nil is skipped |
| CombineCategoriesRb.TallyIds | Ruby/combine_categories.rb:46 | the inner loop appends the row's stock status under each listed id, once per listing, and raises only when a listed id meets a missing stock column |
| CombineCategoriesRb.TallyRow | Ruby/combine_categories.rb:40-46 | one product row raises exactly when the id column is missing, or when ids are listed and the stock column is missing; otherwise it tallies its ids |
| CombineCategoriesRb.TallyPrefix | Ruby/combine_categories.rb:33-47 | after each row the hash holds the contributions of the rows read so far |
| CombineCategoriesRb.NoIdsSnoc | Ruby/combine_categories.rb:40-46 | without a stock column the pass continues only while no row lists an id |
| CombineCategoriesRb.PassRaisesNothing | Ruby/combine_categories.rb:33-47 | a pass that never raised meets none of the raising conditions |
| CombineCategoriesRb.PassTallied | Ruby/combine_categories.rb:33-47 | a completed pass holds, for every id, the tally of the whole file |
| CombineCategoriesRb.ReadCsv | Ruby/combine_categories.rb:27-50 | read_csv raises exactly under the Raises condition and otherwise maps every id to the stock status of each listing of it, in row order |
| CombineCategoriesRb.DropColumns | Ruby/combine_categories.rb:55 | deleting columns keeps the rows |
| CombineCategoriesRb.DropColumnsSpec | Ruby/combine_categories.rb:55 | a cell survives exactly when its column is a base column or was not among the deleted headers |
| CombineCategoriesRb.KeepBase | Ruby/combine_categories.rb:54-55 | dropping the non-base columns keeps the rows |
| CombineCategoriesRb.FindIndex | Ruby/combine_categories.rb:66 | `table.find`: the first row whose categoryid is the parent id, none when no row has it |
| CombineCategoriesRb.AppendRow | Ruby/combine_categories.rb:65-71 | defines the four columns append_table assigns to a row; AppendRowGet, AppendRowSpec and AppendRowKeepsIdName state their values |
| CombineCategoriesRb.AppendRowGet | Ruby/combine_categories.rb:65-71 | after the four assignments each column holds its new value and every other column is kept |
| CombineCategoriesRb.AppendRowSpec | Ruby/combine_categories.rb:65-71 | Parent_Category_Id is the parent's name, the visible root name is it or the row's own name, and the count and sum are those of the row's id's stock list |
| CombineCategoriesRb.AppendRowKeepsIdName | Ruby/combine_categories.rb:64-72 | the assignments never change a row's id or name, which later rows' lookups read |
| CombineCategoriesRb.ParentName | Ruby/combine_categories.rb:65-68 | defines the parent name looked up for a row; ParentNameSpec and ParentNameSameIds state which row it comes from |
| CombineCategoriesRb.ParentNameSpec | Ruby/combine_categories.rb:65-67 | a parentid '0' gives nil; otherwise a name found is that of the first row with the parent's id |
| CombineCategoriesRb.ParentNameSameIds | Ruby/combine_categories.rb:66 | the parent lookup depends only on the rows' ids and names |
| CombineCategoriesRb.AppendTable | Ruby/combine_categories.rb:63-75 | updating the rows in place gives each row the columns computed from the table as it was |
| CombineCategoriesRb.LiveTableSameParent | Ruby/combine_categories.rb:64-67 | looking up parents in the half-updated table gives the same rows as in the original table |
| CombineCategoriesRb.GenerateCsv | Ruby/combine_categories.rb:53-60 | generate_csv keeps the base columns, then appends the four columns to every row |
| CombineCategoriesPy.StripRight | Python/combine_categories.py:36 | `int()` ignores trailing whitespace: the rest is a prefix ending in no whitespace |
| CombineCategoriesPy.StripNoSpace | Python/combine_categories.py:36 | a text without whitespace is kept |
| CombineCategoriesPy.PyInt | Python/combine_categories.py:36 | defines Python's int() on a string, None for the ValueError; PyIntUnsigned, PyIntNegative and PyIntToString state its value |
| CombineCategoriesPy.PyIntUnsigned | Python/combine_categories.py:36 | `int()` of an all-digit text is its decimal value |
| CombineCategoriesPy.PyIntNegative | Python/combine_categories.py:36 | `int()` of a minus sign and digits is the negated value |
| CombineCategoriesPy.PyIntToString | Python/combine_categories.py:36-73 | `int()` reads back any integer's decimal text |
| CombineCategoriesPy.ContributionsAbsent | Python/combine_categories.py:71-76 | an id no row lists is given nothing, so its count and sum are 0 |
| CombineCategoriesPy.ContributionsAppend | Python/combine_categories.py:28-36 | the tally of two runs of rows is the first's followed by the second's |
| CombineCategoriesPy.NothingTallied | Python/combine_categories.py:29 | a row with an empty id or stock field is skipped |
| CombineCategoriesPy.AppendStep | Python/combine_categories.py:34-36 | resetting an absent or empty list and appending adds one copy under that id and nothing under the others |
| CombineCategoriesPy.TallyAt | Python/combine_categories.py:33-36 | one pass reads the slice of four characters at 4j as the id and appends the stock status under it, keeping the lists of every other id; it raises exactly when the status is not an integer |
| CombineCategoriesPy.TallyChars | Python/combine_categories.py:31-36 | the slicing loop appends the stock status under each four-character id, once per slice, and raises only when there is a slice and the status is not an integer |
| CombineCategoriesPy.TallyRow | Python/combine_categories.py:29-36 | one product row raises exactly under RowRaises and otherwise tallies its ids |
| CombineCategoriesPy.ContributionsSnoc | Python/combine_categories.py:28-36 | one more product row appends its stock status once per listing of the id |
| CombineCategoriesPy.ReadStep | Python/combine_categories.py:28-36 | after each row the hash holds the contributions of the rows read so far |
| CombineCategoriesPy.ReadCsv | Python/combine_categories.py:25-38 | read_csv raises exactly when some row raises, and otherwise maps every id to the stock status of each listing of it, in row order |
| CombineCategoriesPy.NameHash | Python/combine_categories.py:57-58 | defines name_hash, None for a KeyError; NameHashBuilt, NameHashKeys and NameHashLastWins state its keys and values |
| CombineCategoriesPy.NameHashBuilt | Python/combine_categories.py:57-58 | name_hash is built unless some row lacks its id or its name |
| CombineCategoriesPy.NameHashKeys | Python/combine_categories.py:58 | its keys are exactly the ids of the rows |
| CombineCategoriesPy.NameHashLastWins | Python/combine_categories.py:58 | each id maps to the name of the last row with that id |
| CombineCategoriesPy.NameHashSnoc | Python/combine_categories.py:58 | one more row adds or overwrites its id's name |
| CombineCategoriesPy.BuildNames | Python/combine_categories.py:57-58 | the loop builds name_hash |
| CombineCategoriesPy.BaseColumnsOfGet | Python/combine_categories.py:62-63 | after n columns the copy holds exactly the base columns among them |
| CombineCategoriesPy.BaseColumnsGet | Python/combine_categories.py:61-63 | the copy holds exactly the row's base columns |
| CombineCategoriesPy.CopyBaseColumns | Python/combine_categories.py:61-63 | the loop copies the base columns, and only those |
| CombineCategoriesPy.ParentColumn | Python/combine_categories.py:65-66 | an unknown or empty parent gives ''; with the parent's name rule a known parent gives its name; a missing parentid raises |
| CombineCategoriesPy.ParentColumnOfCopy | Python/combine_categories.py:65 | the parent column reads only parentid, which the copy keeps |
| CombineCategoriesPy.OutputRow | Python/combine_categories.py:60-78 | defines the row writerow receives; OutputRowRaises and OutputRowGet state when it raises and its columns |
| CombineCategoriesPy.OutputRowRaises | Python/combine_categories.py:60-78 | a row raises KeyError exactly when the parent column does, when it is '' and the row has no name, or when the row has no id |
| CombineCategoriesPy.OutputRowGet | Python/combine_categories.py:60-78 | the written row holds the base columns, the parent column, the visible root name (the parent, which also replaces categoryname, or the name), and the count and sum of the id's stock list, 0 and 0 when it has none |
| CombineCategoriesPy.OwnNameIsOwn | Python/combine_categories.py:66 | as written, a non-empty parent column is the row's own name |
| CombineCategoriesPy.ParentsNameIsParent | Python/combine_categories.py:65-66 | as intended, a non-empty parent column is the name of the last row whose id is the parent id |
| CombineCategoriesPy.ParentColumnExample | Python/combine_categories.py:58-66 | for a root and its child, the child's parent column is "Child" as written and "Root" as intended |
| CombineCategoriesPy.WrittenSnoc | Python/combine_categories.py:60-78 | writing one more row extends the written rows |
| CombineCategoriesPy.WriteRows | Python/combine_categories.py:60-78 | the rows written are the output rows of a prefix of the table, which stops early exactly at a row that raises |
| CombineCategoriesPy.GenerateCsv | Python/combine_categories.py:40-78 | without a name_hash nothing is written; otherwise the output rows of the table, up to the first that raises |
| CombineCsv.KeysOf | Ruby/combine_csv.rb:25-26 | in_base holds exactly the first cells of the base rows |
| CombineCsv.Kept | Ruby/combine_csv.rb:27 | the appended rows are exactly the addendum rows whose first cell is not in in_base |
| CombineCsv.KeptAppend | Ruby/combine_csv.rb:27 | the filter works piece by piece, keeping the addendum's order |
| CombineCsv.KeptRepeats | Ruby/combine_csv.rb:27 | a repeated addendum row whose key is new is appended every time, duplicates included |
| CombineCsv.KeptSnoc | Ruby/combine_csv.rb:27 | one more addendum row is appended unless its key is in in_base |
| CombineCsv.KeysOfSnoc | Ruby/combine_csv.rb:26 | one more base row adds its key |
| CombineCsv.CollectKeys | Ruby/combine_csv.rb:25-26 | the loop over the base rows collects exactly KeysOf(base) |
| CombineCsv.AppendKept | Ruby/combine_csv.rb:27 | the loop over the addendum leaves the base rows followed by the kept addendum rows, in order |
| CombineCsv.AppendCsv | Ruby/combine_csv.rb:24-28 | the file ends as the base rows followed by the kept addendum rows |
| CombineCsv.AppendedIff | Ruby/combine_csv.rb:27 | an addendum row is appended exactly when no base row has its first cell |
| JsonToAhk.Shift | Ruby/json_to_ahk.rb:22-70 | defines SHIFT_MAP with its default; ShiftShape and ShiftLetter state its values |
| JsonToAhk.Special | Ruby/json_to_ahk.rb:72-74 | defines SPECIAL_CHARACTERS with its default; HotkeyNamePlain states that a space is written Space and other keys pass |
| JsonToAhk.ShiftShape | Ruby/json_to_ahk.rb:22-70 | SHIFT_MAP turns a key it lists into `+` and one more character; its default keeps every other key |
| JsonToAhk.ShiftLetter | Ruby/json_to_ahk.rb:36-66 | a capital letter becomes `+` and the lower-case letter |
| JsonToAhk.HotkeyNamePlain | Ruby/json_to_ahk.rb:70-79 | digits and lower-case letters pass both maps unchanged, and a space becomes `Space` |
| JsonToAhk.PlusValues | Ruby/json_to_ahk.rb:119 | `_menuPlus` has the keys of `_menu` |
| JsonToAhk.PlusValuesGet | Ruby/json_to_ahk.rb:119 | each `_menuPlus` value is the `_menu` value with `_Plus` appended |
| JsonToAhk.AssignGet | Ruby/json_to_ahk.rb:121 | `hash[key][header] = value` sets that one cell and keeps every other |
| JsonToAhk.GetLast | Ruby/json_to_ahk.rb:121 | a lookup in a hash with unique keys sees the last entry or the ones before it |
| JsonToAhk.AddBlockGet | Ruby/json_to_ahk.rb:121 | folding one block in sets exactly its cells under the block's header |
| JsonToAhk.Transposed | Ruby/json_to_ahk.rb:120-122 | defines the reduce into the inverted hash; TransposedGet and TransposedKeys state its cells and keys |
| JsonToAhk.TransposedGet | Ruby/json_to_ahk.rb:120-122 | the inverted hash at key k and header h is the JSON's block h at key k |
| JsonToAhk.AddBlockKeys | Ruby/json_to_ahk.rb:121 | folding a block in adds its keys |
| JsonToAhk.TransposedKeys | Ruby/json_to_ahk.rb:120-122 | the inverted hash's keys are exactly the keys of all the blocks |
| JsonToAhk.WithMenuPlus | Ruby/json_to_ahk.rb:118-119 | defines the copy with `_menuPlus` set, None without `_menu`; InvertJson and InvertJsonGet state the result |
| JsonToAhk.InvertJson | Ruby/json_to_ahk.rb:117-123 | invert_json fails exactly when `_menu` is missing, and otherwise transposes the JSON with `_menuPlus` added |
| JsonToAhk.InvertJsonGet | Ruby/json_to_ahk.rb:117-123 | in the inverted JSON, the `_menuPlus` column holds the menu values with `_Plus` and every other column the JSON's own value |
| JsonToAhk.PutWellFormed | Ruby/json_to_ahk.rb:119 | adding `_menuPlus` keeps every block's keys unique |
| JsonToAhk.AhkHotkey | Ruby/json_to_ahk.rb:78-96 | defines one hotkey of generate_ahk_body; HotkeyNamePlain, NoDefaultTail and DefaultLast state its name and branches |
| JsonToAhk.Branches | Ruby/json_to_ahk.rb:82-109 | one `if (mode = ...)` branch per mode |
| JsonToAhk.AhkBody | Ruby/json_to_ahk.rb:77-98 | one hotkey per key of the inverted JSON |
| JsonToAhk.PlusBody | Ruby/json_to_ahk.rb:101-114 | one plus hotkey per key of the inverted JSON |
| JsonToAhk.BranchesExcludeDefault | Ruby/json_to_ahk.rb:80-86 | the branches are those of the block's modes other than `_default`, in order |
| JsonToAhk.BranchEnds | Ruby/json_to_ahk.rb:83-85 | every branch ends in "\n  else" |
| JsonToAhk.JoinEnds | Ruby/json_to_ahk.rb:87 | joining texts that share an ending keeps that ending |
| JsonToAhk.ParagraphEnds | Ruby/json_to_ahk.rb:82-87 | a paragraph with a mode ends in the 7 characters "\n  else" |
| JsonToAhk.NoDefaultTail | Ruby/json_to_ahk.rb:92-93 | without `_default`, `paragraph[...-7]` drops exactly the final "\n  else" |
| JsonToAhk.DefaultLast | Ruby/json_to_ahk.rb:89-91 | with `_default`, the paragraph comes first and the default's Send or code last |
| JsonToAhk.PlusHotkey | Ruby/json_to_ahk.rb:102-112 | defines one hotkey of generate_plus_body; PlusEndsWithKey states that it ends by sending its key |
| JsonToAhk.PlusEndsWithKey | Ruby/json_to_ahk.rb:111-112 | every plus hotkey ends by sending its own key |
| JsonToAhk.Section | Ruby/json_to_ahk.rb:136 | defines one block written back as a `;;;` comment section; AhkRoundTrip.SectionLines and AhkRoundTrip.SectionReadBack state that the reader reads it back into the block |
| JsonToAhk.Sections | Ruby/json_to_ahk.rb:136 | one `;;;` section per block |
| JsonToAhk.MainAsWritten | Ruby/json_to_ahk.rb:134-141 | defines main's output as written; MainAsWrittenHeaderOnly states that with a header nothing else is written |
| JsonToAhk.MainAsWrittenHeaderOnly | Ruby/json_to_ahk.rb:134-141 | as written, a JSON with a header gives a file holding only the header, unlike the intended output |
| JsonToAhk.JoinCons | Ruby/json_to_ahk.rb:141 | joining puts the separator between the first text and the rest |
| JsonToAhk.MainOutput | Ruby/json_to_ahk.rb:134-141 | defines main's output as intended; MainOutputHeader states that the header comes first and the rest follows |
| JsonToAhk.MainOutputHeader | Ruby/json_to_ahk.rb:134-141 | without a header the written and intended outputs agree; a header is put before the rest with a blank line between |
| AhkToJson.Chomp | Ruby/ahk_to_json.rb:71 | `chomp!` removes at most a final "\r" of the line |
| AhkToJson.Lines | Ruby/ahk_to_json.rb:70-71 | the lines File.foreach yields, chomped, hold no line break |
| AhkToJson.SkipSpaces | Ruby/ahk_to_json.rb:24-45 | a leading ` *` consumes the indentation and leaves text starting with no space |
| AhkToJson.SkipSpacesDrops | Ruby/ahk_to_json.rb:24-45 | only spaces are consumed, and none when the line starts with something else |
| AhkToJson.TrimEnd | Ruby/ahk_to_json.rb:43-46 | the text `(.*[^ ]) *\z` captures is a prefix ending in no space |
| AhkToJson.TrimEndDrops | Ruby/ahk_to_json.rb:43-46 | only trailing spaces are dropped, and nothing is left exactly for a blank text |
| AhkToJson.TrimEndSpace | Ruby/ahk_to_json.rb:43 | taking the optional space still leaves a non-blank name |
| AhkToJson.BlockName | Ruby/ahk_to_json.rb:43 | the name the block pattern captures is nil exactly when only spaces follow `;;;`, and otherwise ends in no space |
| AhkToJson.EntryOf | Ruby/ahk_to_json.rb:46 | the entry pattern captures a one-character key and a value ending in no space |
| AhkToJson.FoldAppend | Ruby/ahk_to_json.rb:70-76 | reading a + b is reading a and then b from where a left off |
| AhkToJson.FoldPrefixNone | Ruby/ahk_to_json.rb:70-76 | a line that raises ends the whole run |
| AhkToJson.Step | Ruby/ahk_to_json.rb:71-75 | defines one iteration of main's loop; StepAdvances and StepKeepsBlockOpen state its effect |
| AhkToJson.Run | Ruby/ahk_to_json.rb:66-76 | defines main's loop over the lines; Convert, RunPrefixNone and RunKeepsBlockOpen state its result |
| AhkToJson.RunFromOne | Ruby/ahk_to_json.rb:70-76 | reading one line is one iteration of the loop |
| AhkToJson.RunFromAppend | Ruby/ahk_to_json.rb:70-76 | the loop over a + b continues the loop over a |
| AhkToJson.RunPrefixNone | Ruby/ahk_to_json.rb:70-76 | once a line raises, main raises whatever follows |
| AhkToJson.Convert | Ruby/ahk_to_json.rb:66-80 | the evidently intended main loop (the file as written does not parse, see Left out): the loop over the chomped lines raises exactly when the line-by-line reading does, and otherwise gives its data |
| AhkToJson.StepAdvances | Ruby/ahk_to_json.rb:72-75 | the section only moves forward: pre_space, header, body, prepend, end |
| AhkToJson.StepKeepsBlockOpen | Ruby/ahk_to_json.rb:43-47 | in the body, the current block is always an open hash, so an entry line has a block to go into |
| AhkToJson.RunKeepsBlockOpen | Ruby/ahk_to_json.rb:66-76 | this holds after any number of lines |
| AhkToJson.OpensBlockNotPlain | Ruby/ahk_to_json.rb:39-42 | a `;;;` line is a comment, not blank and not the start of the prepended code |
| AhkToJson.ParseHeader | Ruby/ahk_to_json.rb:23-30 | defines parse_header; HeaderLine and OpensBlockStep state its effect |
| AhkToJson.OpensBlockStep | Ruby/ahk_to_json.rb:24-74 | a `;;;` line before the prepended code opens its block, empty, and makes it the current one, or raises when it has no name |
| AhkToJson.HeaderLine | Ruby/ahk_to_json.rb:27-73 | a line of the header that is not `;;;` is appended to `_header` |
| AhkToJson.LeadingBlanks | Ruby/ahk_to_json.rb:72 | blank lines before the header change nothing |
| AhkToJson.HeaderJoined | Ruby/ahk_to_json.rb:23-73 | after leading blank lines, the header lines are joined with line breaks into `_header` |
| AhkToJson.HeaderRunSnoc | Ruby/ahk_to_json.rb:27 | each header line extends the joined header |
| AhkToJson.HeaderLineRun | Ruby/ahk_to_json.rb:27-73 | the same, for the loop over the lines so far |
| AhkToJson.RunSnoc | Ruby/ahk_to_json.rb:70-76 | one more line is one more iteration |
| AhkToJson.HeaderText | Ruby/ahk_to_json.rb:27 | the first header line starts the text and each later one is appended after a line break |
| AhkToJson.ParseBody | Ruby/ahk_to_json.rb:38-51 | defines parse_body, None where it raises; BlockLineResets, EntryLineSets and BodyToPrepend state its effect |
| AhkToJson.BlockLineResets | Ruby/ahk_to_json.rb:42-44 | in the body, a named `;;;` line makes its block empty and current and keeps every other key |
| AhkToJson.EntryLineSets | Ruby/ahk_to_json.rb:45-47 | in the body, an entry line sets its key in the current block and keeps every other key of the data |
| AhkToJson.BlockNameOf | Ruby/ahk_to_json.rb:43 | `;;; name` gives back the name when it ends in no space |
| AhkToJson.EntryOfLine | Ruby/ahk_to_json.rb:46 | `; X value` gives back the key X and the value when it ends in no space |
| AhkToJson.BodyToPrepend | Ruby/ahk_to_json.rb:39-75 | a line starting with neither `;` nor a space ends the body: a hotkey line ends the reading, any other line starts `_prepend` |
| AhkToJson.ParsePrepend | Ruby/ahk_to_json.rb:54-63 | defines parse_prepend; PrependLine states its effect |
| AhkToJson.PrependLine | Ruby/ahk_to_json.rb:54-62 | in the prepended code a hotkey line ends the reading and every other line is appended to `_prepend` |
| AhkToJson.EndAbsorbs | Ruby/ahk_to_json.rb:72-75 | after the end every line is ignored |
| AhkRoundTrip.EntryLines | Ruby/json_to_ahk.rb:136 | one `; X value` line per entry |
| AhkRoundTrip.SectionLines | Ruby/json_to_ahk.rb:136 | a written section splits into its `;;;` line and its entry lines, or one empty line for an empty block |
| AhkRoundTrip.EntriesRead | Ruby/ahk_to_json.rb:45-47 | reading the first j entry lines fills the block with the first j entries |
| AhkRoundTrip.EntryStep | Ruby/ahk_to_json.rb:45-47 | reading entry line j appends entry j to the block |
| AhkRoundTrip.FreshKey | Ruby/json_to_ahk.rb:136 | in a block with unique keys, entry j's key is not among the earlier ones |
| AhkRoundTrip.EmptyLineStep | Ruby/ahk_to_json.rb:38-51 | an empty line in the body changes nothing |
| AhkRoundTrip.OpenSection | Ruby/ahk_to_json.rb:42-44 | a section's `;;;` line opens its block, empty, keeping the other keys |
| AhkRoundTrip.ReadEntries | Ruby/ahk_to_json.rb:38-51 | the lines after the `;;;` line fill the block with exactly the written entries |
| AhkRoundTrip.SectionReadBack | Ruby/json_to_ahk.rb:136 | reading back a section json_to_ahk writes, before the prepended code, restores its block exactly and changes no other key |

## Left out

- File, network and terminal I/O in every script are left out. That covers reading and writing files, `ARGF`, `puts`, `print`, `URI.open`, `JSON.parse`, `JSON.pretty_generate`, CSV reading and writing, and the VS Code commands. Each model takes and returns the values that the I/O would carry.
- `page_exists?` and `read_robots_txt` in find_sitemaps.rb are network calls. Page existence is the oracle parameter `live`; `read_robots_txt` and the script's driver are not modelled.
- DeepReplace.DeepReplace: the regular-expression engine is not modelled. The rewrite step `apply` and a termination measure `rank` are parameters. The caller must show that each rewrite decreases `rank`, because the source loop runs forever otherwise.
- DeepReplace.DeepReplace is stated with the corrected template (every reference renumbered), not the as-written one (see Findings).
- Escapes.InlineEscape: three things are left out.
  - A line that holds a carriage return other than a final one is left unchanged.
  - `content.replace(new RegExp(...))` rewrites the first line of the whole content that equals the scanned line, and it expands `$` patterns in the new line. The model rewrites each line in its place. The `$` expansion is modelled separately, in EscapeLineAsWritten.
  - Lines that start with ESC are filtered out before scanning; the model leaves them unchanged, which is what the source's replace loop does to them.
- Escapes.InternalEscape: for the `$` delimiter the contract is only that the result is OuterFrom. The outer replace expands `$` patterns, so the content is not kept (DollarSpanCollapses), and no closed form of the result is stated.
- Escapes.InternalEscapeIntended: the outer replace is a literal insertion, as intended (Findings, extension.ts:214). With the replace as written, a span holding `$$`, `$&`, `` $` `` or `$'` would be expanded and none of its three ensures would hold for it.
- AhkToJson.Convert: ahk_to_json.rb:70 gives `yield_self` both a block argument (`&File.method(:foreach)`) and a `do` block. Ruby rejects that when it parses the file ("both block arg and actual block given"), so the script as written never runs. Convert, Run and Step model the loop evidently intended, `File.foreach(path) do |line| ... end`. A file that does not parse has no behaviour to model, so there is no as-written member.
- The command-line drivers of combine_categories.rb and combine_categories.py are not modelled, and their argument order disagrees with their header comments. combine_categories.rb:85 passes `ARGV[0]`, documented at :20 as the products file, as `categories_path`. combine_categories.py:80 reads `sys.argv[1]`, documented at :18 as the products file, as the categories table, and `sys.argv[2]` as `products_path`. The model's argument roles are those of read_csv and generate_csv, not those of the comments.
- Escapes.InternalEscape: the delimiter is one literal character other than ESC or a backslash. The callers pass a backtick and `\\$`, the regular-expression escape of `$`, which the model takes as the character `$`.
- Metadata.ChompMetadata: content with unbalanced braces makes the source loop forever. It is modelled as None.
- TableFormatter.NumLines and TableFormatter.SplitLines require every word to fit the width. With a longer word the source loops forever (LongWordNeverPlaced shows that the loop never consumes such a word).
- TableWidths.ClimbHill runs at most `fuel` rounds. The source loop has no bound, and nothing in the source shows that it ends.
- TableWidths.ClimbHill, FindBallparkWidths and MinimizeWidths require the widths to fit every longest word. Otherwise `num_lines` inside them does not return. `FindBallparkWidths` requires this of the initial equal widths.
- The max_word_lengths computation and `generate_table` in table-formatter.rb are not modelled. They are `split`/`max` over the input and text output to out.txt, and their cell wrapping is SplitLines.
- TableWidths.IntLog is an integer logarithm in place of the floating-point `Math.log(RANDOM_TRIES, num_columns).floor`. Floating-point rounding is not modelled. For RANDOM_TRIES = 10000 the two could disagree only where 10000 is an exact power of the base (10, 100 and 10000), and there the model takes the exact value.
- TableWidths.SearchBetterWidthBest is proved for two or more columns. With one column `Math.log(x, 1)` is infinite, and the search is None.
- HhmmTime: `argf` reads standard input, and `T = Time` and the aliases are names only. None of them is modelled.
- Catalan: the `print` calls are left out. PathsAreCatalan and SummationIsCatalan are checked for n up to 6, the values the script prints; a general closed form is not proved.
- Portmanteau.SoundText: the iteration order of a Python set is unspecified. It is the parameter `order`, required (Enumerates) to list every member of each alternative set exactly once; which of those orders CPython picks is not modelled.
- Portmanteau: `read_freq_list` and `main` (file reading and `int()` on frequency columns) are not modelled.
- Portmanteau: `read_sound_list`'s `line[0] in letters` filter and its tab split are not modelled. RecordSounds models the recording of one word's pronunciations.
- CombineCategoriesRb: CSV.table's header symbolisation and numeric converters are not modelled.
  - Cells stay strings or nil.
  - As a result, the comparison `row[:parentid] == '0'` is modelled as a string comparison; with the converters it compares an Integer.
  - `to_i` is modelled on ASCII whitespace, a sign and decimal digits; underscores are not accepted.
- CombineCategoriesPy: the `int()` model accepts ASCII whitespace, a sign and decimal digits. It does not accept underscores or other Unicode digits and spaces. DictReader's restkey and short rows are not modelled: a row is its header-to-value pairs.
- CombineCategoriesRb.AppendTable and CombineCategoriesRb.GenerateCsv change an array of rows in place. The rows themselves are values, so aliasing between rows is not modelled.
- CombineCsv.AppendCsv returns the appended file as a value instead of writing it.
- JsonToAhk: main's input is the JSON with `_prepend` and `_header` already deleted; the `delete` calls and the file glob are left out.
- AhkToJson: `show` stands for Ruby's Hash#to_s, used when a header or prepend key already holds a block. The String#[]= branch of parse_body, for a block name that holds a string, is modelled but cannot be reached from main.
- AhkRoundTrip.SectionReadBack is proved for entries with one-character keys and values without trailing spaces or line breaks, which are the only entries parse_body's patterns can read back.
- In-place hash updates (`categories_hash[id] <<`, `data[block] = {}`, `json['_menuPlus'] = ...`) are modelled as functions that return the new hash.

## Findings

| source | as written | input that shows it | evidently intended | confidence | as-written member | corrected member |
|---|---|---|---|---|---|---|
| JavaScript/sitelen-kasa/src/extension.ts:180 | `replace.replace('$i', ...)` with a string pattern renumbers only the first occurrence of each reference | template `$1$1` becomes `$2$1`, so the second reference points at the new prefix group | every reference raised by one, as the comment on line 179 says | high, not executed | DeepReplace.RenumberRepeatedRef | DeepReplace.RenumberEveryRef |
| JavaScript/sitelen-kasa/src/extension.ts:208 | `matchAll` on a RegExp built without the g flag throws a TypeError | with the backtick delimiter, any content holding ESC, two backticks, ESC | the inner loop runs over all matches (flag g) | high, not executed | Escapes.InternalEscapeAsWritten | Escapes.InternalEscape |
| JavaScript/sitelen-kasa/src/extension.ts:204 | the group's class `[${delim2}]` admits only the delimiter, so a span is ESC, delimiters, ESC and never holds the backslashes the inner loop rewrites; even with the g flag the inner rewrite leaves every span as it is | the code span ESC, backtick, two backslashes, two backticks, ESC is left as it is | the class `[^${delim2}]`: a span runs from ESC and the delimiter to the next delimiter followed by ESC, and its escaped delimiters are marked | medium, not executed | Escapes.EscapedDelimiterMissed | Escapes.InternalEscapeIntended |
| JavaScript/sitelen-kasa/src/extension.ts:214 | `content.replace(match[0], matchCopy)` reads the rewritten span as a replacement string, so `$$`, `$&`, `` $` `` and `$'` in it are expanded (this shows once the g flag of line 208 is supplied) | with the `$` delimiter of the call at line 100, the span ESC $ $ ESC comes back as ESC $ ESC | the rewritten span inserted literally, so content without backslashes comes back unchanged | medium, not executed | Escapes.DollarSpanCollapses | Escapes.InternalEscapeIntended |
| JavaScript/sitelen-kasa/src/extension.ts:248-254 | the marked line is used as a replacement string, so `$$` in it collapses to `$` | the line `$$` is written back as ESC $ ESC | the marked line inserted literally: ESC $ $ ESC | high, not executed | Escapes.DoubleDollarCollapses | Escapes.InsertAllMarked |
| Ruby/table-formatter.rb:54-55 | after the filter, `map.with_index` numbers columns by their filtered position | lines [7, 4, 9], widths [6, 10, 10], longest words [6, 3, 3] map 4 to column 0 and 9 to column 1 | each line count maps to the column's own index (1 and 2) | high, not executed | TableWidths.ToLinesMapShiftsIndices | TableWidths.ToLinesMapGet |
| Ruby/time.rb:38-39 | the borrow `(minutes - other % 100) / 60` is negative and is subtracted, adding hours | 1:10 minus 20 gives 2:50 | 0:50 | high, not executed | HhmmTime.SubtractBorrowAddsHours | HhmmTime.SubtractUndoesAdd |
| Python/catalan_numbers.py:58-64 | no case returns 1, so every path count is 0 | get_paths_for_n(3) is 0 | 1 when no steps remain, which gives the Catalan numbers | high, not executed | Catalan.PathsAsWrittenZero | Catalan.PathsAreCatalan |
| Python/portmanteau.py:148-149 | the else branch calls find_const, which scans forwards from index - 1 | "patast" gives "p" | the prefix before the last run of vowels, "pat" | medium, not executed | Portmanteau.FindMainPatast | Portmanteau.FindMainLastRun |
| Ruby/find_sitemaps.rb:97-99 | the modifier `if` yields nil when the second character is not `0`, and insert_char then raises | ["/sitemap1.xml"] raises NoMethodError | "/sitemap1.xml" normalized to "/sitemap.xml", then "/sitemap2.xml" tried | high, not executed | FindSitemaps.Add2sRaises | FindSitemaps.Add2s |
| Ruby/json_to_ahk.rb:135-140 | `header ? [header] : [] + ...` parses as `header ? [header] : ([] + ...)` | a JSON with `_header` produces a file holding only the header | the header followed by the sections and hotkeys | high, not executed | JsonToAhk.MainAsWrittenHeaderOnly | JsonToAhk.MainOutputHeader |
| Python/combine_categories.py:66 | Parent_Category_Id takes `name_hash[row['categoryid']]`, the row's own name | a child row of "Root" named "Child" gets "Child" | the parent's name, `name_hash[new_row['parentid']]` | high, not executed | CombineCategoriesPy.ParentColumnExample | CombineCategoriesPy.ParentsNameIsParent |
