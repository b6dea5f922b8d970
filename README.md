# OdyseusSublimePlugins, modelled in Dafny

A model of the logic inside the Sublime Text plugins of OdyseusSublimePlugins.
The plugins are independent of each other, so each plugin file becomes one
Dafny module. The host editor is modelled as plain data: the buffer is a
`string`, a region is a pair of offsets, and the selection set is a sequence
of regions. Settings are parameters. So are the host's answers that the model
cannot compute, such as scope names and scope scores, the word under a
cursor, whether an executable exists, and what an external library returns.

Shared modules:

- `Wrappers` (wrappers.dfy): Option and Result.
- `Regions` (regions.dfy): the host's regions.
- `Seqs` (seqs.dfy): sequence helpers.
- `Strings` (strings.dfy): the parts of Python's `str` the plugins use (isspace, strip, lower/upper, replace, split, join, str(int)). Case mapping is ASCII only; see "Left out".
- `Edits` (edits.dfy): several replacements in one buffer. Applying them first-to-last with shifted offsets, or last-to-first, is proved equal to the simultaneous splice.
- `Host` (view.dfy): a `View` class holding the buffer and selection set, which its methods change in place.
- `Search` (search.dfy): literal and whole-word search as the host's find and find_all perform it.
- `Json` (json.dfy): settings values.

Plugin modules:

- `DisplayNumbers`: parsing C integer literals, rendering in a base, digit grouping, bit flipping, endianness swap.
- `DeleteBlankLines`, `ToggleQuotes`, `ToggleWords`, `CaseConversion`, `TextDebugging`: text transforms on the selections.
- `CodeFormatter`: offset-shifted replacement of formatted selections, and the partition of formatting jobs by their state.
- `TrailingSpaces`: finding, highlighting and deleting trailing whitespace.
- `WordHighlight`: bounded search windows, highlighting and the select-next commands.
- `FindResults`: next/previous match, lines, files and block bounds in the Find Results buffer.
- `MessagePanel`, `PanelMessage`: the message panel and the package's message helper.
- `Deselect`: collapsing the selection.
- `SidebarCommands`: visibility rules, settings lookup and command building of the sidebar commands.
- `CompareFiles`: the three-slot history of activated files.
- `SearchWithZeal`: scope-to-language mapping, word scans, query building and the prompt's memory.
- `SnippetsToCompletions`: the snippets-to-completions script.

State the source changes in place takes the form of classes: the view, the
comparison history, the highlight storages, the message panel and the Zeal
prompt. Loops become methods proved against specification functions. Pure
code becomes functions and lemmas.

## Model

| member | source | states |
|---|---|---|
| Host.Adjust | st_plugins/case_conversion.py:204 | after view.replace a selection that lies at or after the end of the replaced region moves by the growth, and one ending before that end is unchanged; each end moves on its own, so the replaced selection's far end follows the new text |
| Host.ReplacedSelectionCovers | st_plugins/toggle_quotes.py:49 | a non-empty selection that is itself replaced covers exactly the new text afterwards, with its direction kept, and the selection after it moves by the growth |
| Deselect.Deselected | st_plugins/deselect.py:16-20 | exactly one selection remains, empty and at the `b` end of the old first selection; no selection at all is the IndexError case |
| Deselect.DeselectedIdempotent | st_plugins/deselect.py:16-20 | deselecting a second time changes nothing |
| Deselect.Run | st_plugins/deselect.py:16-20 | the selection set becomes the single caret, the buffer text is unchanged, and an empty selection set raises with nothing changed |
| ToggleQuotes.NextQuote | st_plugins/toggle_quotes.py:17-43 | the next quote of the cycle ' " ` is a quote other than the old one |
| ToggleQuotes.NextQuoteCycle | st_plugins/toggle_quotes.py:42-43 | three unforced steps return to the first quote |
| ToggleQuotes.QuoteMatch | st_plugins/toggle_quotes.py:16-28 | a match of the quote pattern gives a quote and a line-break-free inner text that rebuild the text, with `$` allowing one final line break |
| ToggleQuotes.QuoteMatchQuoted | st_plugins/toggle_quotes.py:16-28 | every text quoted with one quote character around a line-break-free inner text matches, with that quote and inner text |
| ToggleQuotes.NewQuote | st_plugins/toggle_quotes.py:42-43 | the force_quote argument wins when non-empty, otherwise the next quote of the cycle |
| ToggleQuotes.ToggleQuotesAround | st_plugins/toggle_quotes.py:45-48 | the replacement text begins and ends with the new quote |
| ToggleQuotes.ToggleAt | st_plugins/toggle_quotes.py:27-38 | a matching selection is always rewritten in place with Toggle of its match; the selection widened by one character on each side is used exactly when the selection fails and the widened text matches; nothing happens exactly when both fail |
| ToggleQuotes.Run | st_plugins/toggle_quotes.py:21-49 | an empty first selection is first expanded to its scope, then every selection in turn is toggled as ToggleAt says, on the live buffer |
| ToggleQuotes.ToggleStep | st_plugins/toggle_quotes.py:25-49 | one pass of the loop rewrites the k-th live selection as Step says |
| ToggleQuotes.UnescapeOther | st_plugins/toggle_quotes.py:46-47 | escaping the new quote leaves no escaped old quote to undo when the text has no backslash |
| ToggleQuotes.ToggleForcedBack | st_plugins/toggle_quotes.py:40-48 | forcing the old quote back undoes a forced toggle of a text without backslashes, the old quote or line breaks |
| ToggleQuotes.ToggleAgain | st_plugins/toggle_quotes.py:40-48 | the result of an unforced toggle matches again, with the next quote |
| ToggleWords.LastContainingIsLast | st_plugins/toggle_words.py:77-84 | the occurrence loop leaves the word and region it started with when no occurrence on the caret's line contains the caret, otherwise the last occurrence that does, with its text |
| ToggleWords.ToggleWord | st_plugins/toggle_words.py:61-101 | either the first matching (group, word) pair's region is replaced and the selections adjusted by the change in length, with no message, or nothing changes and the "Can't find toggles" message names the word |
| ToggleWords.TryWord | st_plugins/toggle_words.py:69-97 | one pass of the inner loop replaces the region and stops on a match in one of the four case forms, else carries the word and region on |
| ToggleWords.FindAtCaret | st_plugins/toggle_words.py:72-84 | for a caret, the word and region are relocated to the last occurrence of the group word on the caret's line that contains the caret |
| ToggleWords.ScanFinds | st_plugins/toggle_words.py:77-84 | the loop over the line's occurrences computes LastContaining |
| ToggleWords.Step | st_plugins/toggle_words.py:51-59 | a pass of run keeps the number of selections; a non-empty region is toggled as a selection, an empty one at its word with the caret |
| ToggleWords.Run | st_plugins/toggle_words.py:45-59 | an empty toggle_words setting changes nothing; otherwise every selection is toggled in turn on the live buffer and the status messages collected |
| ToggleWords.RunStep | st_plugins/toggle_words.py:51-59 | one pass of the loop in run changes the view as Step says |
| ToggleWords.GroupPairs | st_plugins/toggle_words.py:66-70 | each word of a group is paired with the next, the last with the first |
| ToggleWords.ScanSelected | st_plugins/toggle_words.py:65-97 | for a selection the nested loops equal the reference: the first pair whose word matches decides the replacement |
| ToggleWords.PairsFromNextGroup | st_plugins/toggle_words.py:65-69 | after a group's last word the loops go on with the next group's first word |
| ToggleWords.PairsFromNextWord | st_plugins/toggle_words.py:69-70 | each step of the inner loop visits the pair of the current word and its successor |
| ToggleWords.ScanSelectedAll | st_plugins/toggle_words.py:61-101 | the whole scan of a selection is the first-matching-pair reference over all groups |
| ToggleWords.MatchesLower | st_plugins/toggle_words.py:86-97 | between lower-case words the four case forms reduce to equality |
| ToggleWords.FirstToggleDistinct | st_plugins/toggle_words.py:86-91 | among distinct lower-case pairs the pair of the selected word is the one used |
| ToggleWords.ToggleCycles | st_plugins/toggle_words.py:65-91 | with one group of distinct lower-case words, a selected word toggles to the next word of the group, the last to the first |
| ToggleWords.PairsOne | st_plugins/toggle_words.py:65-70 | a one-group setting visits just that group's pairs |
| ToggleWords.GroupToggle | st_plugins/toggle_words.py:69-91 | within one group of distinct lower-case words the pair found for word k replaces it by word k + 1 |
| DeleteBlankLines.KeepLines | st_plugins/delete_blank_lines.py:35-47 | the stripping loop never adds lines and always keeps the last line |
| DeleteBlankLines.StripLines | st_plugins/delete_blank_lines.py:35-47 | the `del lines[i]` loop leaves exactly KeepLines of the lines |
| DeleteBlankLines.KeepDrop | st_plugins/delete_blank_lines.py:39-44 | a blank line before the last goes when surplus is off or a blank line came just before |
| DeleteBlankLines.KeepKeep | st_plugins/delete_blank_lines.py:39-47 | a non-blank line, or the first blank line of a run under surplus, stays |
| DeleteBlankLines.StripSelection | st_plugins/delete_blank_lines.py:30-53 | the selection's text is replaced by its stripped lines joined with "\n", the other selections shift, and the returned region covers exactly the new text |
| DeleteBlankLines.Run | st_plugins/delete_blank_lines.py:14-28 | with whole_file the whole buffer is stripped; otherwise each selection in turn is stripped on the live buffer and the selection set becomes the regions of the results |
| DeleteBlankLines.StripWholeFile | st_plugins/delete_blank_lines.py:17-18 | the region (0, size) is stripped |
| DeleteBlankLines.Reselect | st_plugins/delete_blank_lines.py:25-28 | the selection set is cleared and the new regions added, the text untouched |
| DeleteBlankLines.StripEach | st_plugins/delete_blank_lines.py:20-22 | the loop over the live selection set rewrites each selection and collects the regions of the results |
| DeleteBlankLines.StripStep | st_plugins/delete_blank_lines.py:20-22 | one pass strips the live k-th selection and returns its new region |
| DeleteBlankLines.KeepNonBlank | st_plugins/delete_blank_lines.py:38-47 | stripping never removes nor reorders a line with text on it |
| DeleteBlankLines.KeepNoSurplus | st_plugins/delete_blank_lines.py:38-47 | without surplus, what is left is the non-blank lines before the last one, then the last line |
| DeleteBlankLines.CollapseNoBlankRun | st_plugins/delete_blank_lines.py:38-47 | the reference collapse leaves no two neighbouring blank lines |
| DeleteBlankLines.KeepSurplus | st_plugins/delete_blank_lines.py:38-47 | with surplus, each run of blank lines keeps only its first line (none right after a blank line), and the last line stays |
| DeleteBlankLines.KeepSurplusNoBlankRun | st_plugins/delete_blank_lines.py:38-47 | with surplus, no two neighbouring blank lines remain before the last line |
| DeleteBlankLines.KeepNoBlank | st_plugins/delete_blank_lines.py:38-47 | lines without a blank one before the last are left as they are |
| DeleteBlankLines.StripTextUnchanged | st_plugins/delete_blank_lines.py:32-49 | a "\n"-separated text without a final line break and without blank lines before the last comes out unchanged |
| CaseConversion.ToggleCaseOtherwiseUnchanged | st_plugins/case_conversion.py:142-151 | toggle_case converts only PascalCase without separator, snake_case and camelCase without separator; any other text comes back unchanged |
| CaseConversion.ToggleCase | st_plugins/case_conversion.py:125-151 | specification of toggle_case: PascalCase goes to snake_case, snake_case to camelCase, camelCase to PascalCase, anything else is returned as it is; ToggleCaseOtherwiseUnchanged states the last case |
| CaseConversion.ResolveFunc | st_plugins/case_conversion.py:173-182 | a function name resolves exactly when the library has it, otherwise the AttributeError; no function raises "No case function defined." |
| CaseConversion.Options | st_plugins/case_conversion.py:184-191 | arguments win over settings for detect_acronyms and use_acronyms_list, and the acronym list is used only when use_list holds |
| CaseConversion.StripAround | st_plugins/case_conversion.py:199-201 | the stripped text sits between the leading whitespace and whitespace only |
| CaseConversion.NewTextKeepsWhitespace | st_plugins/case_conversion.py:198-204 | the corrected replacement keeps the leading and trailing whitespace exactly, and a conversion that changes nothing leaves the text as it was |
| CaseConversion.NewText | st_plugins/case_conversion.py:198-201 | specification of the corrected replacement: leading whitespace, the converted stripped text, and the whitespace after the stripped text; NewTextKeepsWhitespace states its properties |
| CaseConversion.NewTextAsWritten | st_plugins/case_conversion.py:198-201 | specification of the replacement as written, with `text[len(text.rstrip()):]` as the trailing part; WhitespaceDoubled and TrailingAgrees relate it to NewText |
| CaseConversion.TrailingAgrees | st_plugins/case_conversion.py:199-200 | for a text that is not all whitespace the written and the corrected trailing parts agree |
| CaseConversion.WhitespaceDoubled | st_plugins/case_conversion.py:199-201 | as written, a selection of one space comes back as two; the corrected replacement keeps it |
| CaseConversion.Step | st_plugins/case_conversion.py:193-207 | one pass of the selection loop keeps the number of selections and replaces the selection, or the word at an empty one, by NewText (the corrected trailing part; see "Left out") |
| CaseConversion.StepFails | st_plugins/case_conversion.py:193-207 | a failing conversion is reported under "run_on_selections: Error" and changes nothing; a successful one reports nothing and a text left alone is not replaced |
| CaseConversion.RunOnSelections | st_plugins/case_conversion.py:154-207 | an unresolvable function raises before any selection is touched; otherwise every selection is converted in turn on the live buffer with the resolved options, by Step with the corrected trailing part (see "Left out") |
| CaseConversion.RunStep | st_plugins/case_conversion.py:193-207 | one pass of the loop changes the view as Step says, with the corrected trailing part (see "Left out") |
| CaseConversion.ToggleSnakeCamelPascal | st_plugins/case_conversion.py:214-231 | the toggle command runs the selection loop (corrected trailing part) with toggle_case |
| CaseConversion.ConvertCase | st_plugins/case_conversion.py:238-261 | an exception before the loop is reported with the command's title and changes nothing; otherwise the loop (corrected trailing part) runs with the named function |
| TrailingSpaces.Unignored | st_plugins/trailing_spaces.py:83-96 | a found region is kept exactly when the joined scope_ignore is empty or its begin is not in an ignored scope |
| TrailingSpaces.UnignoredInOrder | st_plugins/trailing_spaces.py:93-96 | the filter keeps the found regions in order and apart |
| TrailingSpaces.FindTrailingSpaces | st_plugins/trailing_spaces.py:78-106 | nothing without a view or a selection; the matched regions are the unignored ones; the highlightable ones are all of them, except the offender on the current line when include_current_line is off |
| TrailingSpaces.HighlightableMatched | st_plugins/trailing_spaces.py:98-106 | what is highlighted is among what would be deleted, and the offender on the current line is not highlighted |
| TrailingSpaces.ViewSyntax | st_plugins/trailing_spaces.py:159-160 | the syntax name is the lower-cased last path component, "" without a syntax |
| TrailingSpaces.IgnoreView | st_plugins/trailing_spaces.py:156-169 | no view, a scratch view or a widget is ignored; otherwise a view is ignored exactly when its syntax name contains a lower-cased syntax_ignore entry |
| TrailingSpaces.AnyIn | st_plugins/trailing_spaces.py:165-167 | the loop answers whether some lower-cased entry is part of the name |
| TrailingSpaces.NoEntriesNoIgnore | st_plugins/trailing_spaces.py:162-169 | with no syntax_ignore entries an ordinary view is never ignored |
| TrailingSpaces.MaxSizeExceeded | st_plugins/trailing_spaces.py:172-185 | the size limit is file_max_size, 1048576 by default, and is exceeded only strictly |
| TrailingSpaces.Highlighter.Highlight | st_plugins/trailing_spaces.py:188-212 | a list equal to the remembered one changes nothing; any other replaces the highlighted regions and is remembered |
| TrailingSpaces.Highlighter.Match | st_plugins/trailing_spaces.py:109-140 | ignored views and views over the size limit are left alone, the latter with the "too big" message; otherwise the highlightable regions are shown |
| TrailingSpaces.Deletions | st_plugins/trailing_spaces.py:254-255 | one empty replacement per region, at its place |
| TrailingSpaces.EraseAllBuffer | st_plugins/trailing_spaces.py:253-255 | erasing the regions one after another is applying their deletions in order |
| TrailingSpaces.DeletionsReversed | st_plugins/trailing_spaces.py:253 | the deletions of the reversed regions are the reversed deletions |
| TrailingSpaces.DeletionsOrdered | st_plugins/trailing_spaces.py:93-96 | regions in order and apart give deletions in order and apart |
| TrailingSpaces.ErasedIsSplice | st_plugins/trailing_spaces.py:251-256 | erasing from the last region to the first removes exactly those regions of the original buffer, and the buffer shrinks by their total size |
| TrailingSpaces.DeletionsDelta | st_plugins/trailing_spaces.py:254-255 | each deletion shrinks the buffer by its region's size |
| TrailingSpaces.EraseStep | st_plugins/trailing_spaces.py:254-255 | one erase replaces its region by nothing |
| TrailingSpaces.DeleteTrailingRegions | st_plugins/trailing_spaces.py:233-258 | no regions means nothing changes and 0; otherwise the reversed regions are erased one by one and their number returned |
| TrailingSpaces.DeleteMessage | st_plugins/trailing_spaces.py:328-337 | 0 gives "No trailing spaces to delete!"; otherwise the message starts with "Deleted", the count and "trailing spaces region" |
| TrailingSpaces.PluralTail | st_plugins/trailing_spaces.py:332-335 | the message ends in "regions" exactly when the plural is added |
| TrailingSpaces.DeleteMessagePlural | st_plugins/trailing_spaces.py:332-335 | the plural is used exactly when more than one region was deleted |
| TrailingSpaces.DeleteMessageOne | st_plugins/trailing_spaces.py:332-335 | one region gives "Deleted 1 trailing spaces region" |
| TrailingSpaces.DeleteCommand | st_plugins/trailing_spaces.py:309-339 | a buffer over the size limit is left alone with the "too big" message; otherwise the regions are deleted and counted in the message |
| TrailingSpaces.Highlighter.constructor | st_plugins/trailing_spaces.py:30-35 | nothing is remembered as highlightable at load, and nothing is shown |
| WordHighlight.EscapeRegex | st_plugins/word_highlight.py:63-69 | escape_regex equals the escaping that leaves ', <, >, ` and alphanumerics bare and backslashes every other character |
| WordHighlight.ReEscape | st_plugins/word_highlight.py:66 | specification of re.escape: every character other than an ASCII letter, digit or underscore backslashed, NUL written "\\000"; EscapeRegexSteps and LiteralEscape state its properties |
| WordHighlight.EscapeRegexSteps | st_plugins/word_highlight.py:66-69 | re.escape followed by the four replacements removes exactly the backslash re.escape put before each of the four characters |
| WordHighlight.UnescapeStep | st_plugins/word_highlight.py:67-69 | one str.replace of backslash-c by c turns the escaping with one set of bare characters into the escaping with c added to it |
| WordHighlight.FirstNotBare | st_plugins/word_highlight.py:66-69 | an escaped text never starts with a punctuation character that the escaping leaves un-bare |
| WordHighlight.ReplacePlain | st_plugins/word_highlight.py:68 | a replacement whose pattern starts with a backslash does not touch a backslash-free prefix |
| WordHighlight.UnescapeUnit | st_plugins/word_highlight.py:68 | the backslash before c is removed only inside c's own escaped unit |
| WordHighlight.UnescapeOwn | st_plugins/word_highlight.py:68 | the escaped unit of c loses its backslash |
| WordHighlight.UnescapeNul | st_plugins/word_highlight.py:68 | the NUL escape "\000" is never affected by the unescaping of a character other than 0 |
| WordHighlight.UnescapeOther | st_plugins/word_highlight.py:68 | the escaped unit of another character stays as it is |
| WordHighlight.LiteralUnit | st_plugins/word_highlight.py:66 | each escaped unit, read as a pattern, stands for its own character |
| WordHighlight.LiteralEscape | st_plugins/word_highlight.py:66-69 | any escaping that keeps backslash escaped reads back as the original text |
| WordHighlight.EscapeRegexLiteral | st_plugins/word_highlight.py:63-69 | the pattern escape_regex builds matches exactly the text searched for (round trip) |
| WordHighlight.SearchPatternShape | st_plugins/word_highlight.py:74-78 | without non-word search the pattern is the escaped text between the word-boundary guards, and its middle reads back as the text |
| WordHighlight.SearchPattern | st_plugins/word_highlight.py:74-78 | specification of the pattern: the escaped text, between the word-boundary guards unless non-word search is on; SearchPatternShape states its shape |
| WordHighlight.Window | st_plugins/word_highlight.py:85-97 | the limited search is empty iff the first find fails, starts with that match, and every match lies at or after the starting point |
| WordHighlight.WindowCons | st_plugins/word_highlight.py:89-97 | a match ending after the window end is kept and stops the search; otherwise the search resumes at the match's end |
| WordHighlight.WindowChain | st_plugins/word_highlight.py:89-97 | each match but the last ends inside the window and the next one is the find from its end; the last ends past the window or nothing follows it |
| WordHighlight.WindowOrdered | st_plugins/word_highlight.py:89-97 | the matches of the limited search come in order and never overlap |
| WordHighlight.WindowBegin | st_plugins/word_highlight.py:86 | the search begins `search_chars` before the visible region, clamped at the start of the buffer |
| WordHighlight.FindRegions | st_plugins/word_highlight.py:72-99 | find_regions appends to the region list all matches (small file) or the window matches (large file) and keeps what was there |
| WordHighlight.Uncovered | st_plugins/word_highlight.py:158-160 | a region survives iff it is in the list and contains none of the selections |
| WordHighlight.UncoveredSnoc | st_plugins/word_highlight.py:158-160 | dropping the regions containing one more selection equals filtering against the longer selection list |
| WordHighlight.UncoveredNone | st_plugins/word_highlight.py:158-160 | with no selections nothing is dropped |
| WordHighlight.DropCovering | st_plugins/word_highlight.py:158-160 | the loop over the selections keeps exactly the regions containing no selection |
| WordHighlight.CandidateOf | st_plugins/word_highlight.py:151-173 | a caret contributes only when empty selections are highlighted; a word selection only when it is exactly view.word of itself; a non-word selection exactly its non-empty text; a searched text is never empty and, outside non-word mode, holds no separator; covering regions are dropped only for a caret not highlighted under the cursor |
| WordHighlight.Candidates | st_plugins/word_highlight.py:151-173 | one candidate per selection, each the one its branch of the loop gives |
| WordHighlight.NextBookkept | st_plugins/word_highlight.py:152-173 | one selection keeps the processed texts distinct and every searched text among the processed ones |
| WordHighlight.ScanAllBookkept | st_plugins/word_highlight.py:151-177 | the whole loop keeps that bookkeeping |
| WordHighlight.ScanAll | st_plugins/word_highlight.py:151-177 | specification of the selection loop: the candidates folded in order into regions and processed texts; ScanAllBookkept, SearchedOnce and RunScan state its properties |
| WordHighlight.SearchedOnce | st_plugins/word_highlight.py:151-177 | in one run no text is searched for twice and the empty text never is |
| WordHighlight.ScanStep | st_plugins/word_highlight.py:152-177 | one iteration of the loop updates the regions and the processed texts as the specification of one selection says |
| WordHighlight.RunScan | st_plugins/word_highlight.py:151-177 | the loop over the selections builds the regions of the specification |
| WordHighlight.NextHighlighted | st_plugins/word_highlight.py:212-217 | the index found is the first highlighted region ending after both the last selection and the skip mark, and None means no region qualifies |
| WordHighlight.Storage.HighlightOccurrences | st_plugins/word_highlight.py:123-195 | the memory changes as Highlighted states: no non-empty selection with carets off clears highlight and memory; unchanged selections change nothing; otherwise the new selections and regions are remembered and the view shows the regions, redrawn only when they differ from the last run's; the file-size limit picks the limited search; the skip mark is kept |
| WordHighlight.HighlightIdempotent | st_plugins/word_highlight.py:123-195 | running highlight_occurences twice with the same selections changes the memory only once |
| WordHighlight.Storage.SelectHighlighted | st_plugins/word_highlight.py:198-202 | every highlighted region is added to the selection, the buffer untouched |
| WordHighlight.Storage.SelectNext | st_plugins/word_highlight.py:205-217 | with a selection, the first highlighted region past the last selection and the skip mark is added and the mark moves to its end; otherwise nothing changes |
| WordHighlight.Storage.SkipLast | st_plugins/word_highlight.py:220-226 | with more than one selection the last one is removed and the skip mark set to its end; otherwise nothing changes |
| WordHighlight.Storage.Click | st_plugins/word_highlight.py:229-234 | the skip mark is reset; when live and not in a widget the memory changes as Highlighted states for highlight_occurences, otherwise it is kept |
| WordHighlight.Storage.OnActivated | st_plugins/word_highlight.py:238-243 | the last selections and the skip mark are forgotten; the highlights are erased only for a loaded view without live highlighting |
| WordHighlight.ListenerRuns | st_plugins/word_highlight.py:245-252 | on_selection_modified_async runs the highlighter only for a view with selections, with live highlighting on, and not in a widget |
| WordHighlight.Storage.constructor | st_plugins/word_highlight.py:27-34 | no previous selections or regions at load, and no word skipped |
| DisplayNumbers.GroupsShape | st_plugins/display_numbers.py:116-123 | the groups format_str separates concatenate back to the string, all but the leftmost have exactly `num` characters and none is empty |
| DisplayNumbers.GroupsZero | st_plugins/display_numbers.py:116-123 | with a group size of 0 (`s[-0:]` is the whole string) the string stays one group |
| DisplayNumbers.FormatStr | st_plugins/display_numbers.py:116-123 | the while loop of format_str yields the groups cut from the right, joined by the separator |
| DisplayNumbers.RemoveSeparatorsSpan | st_plugins/display_numbers.py:51 | a stretch without a separator underscore passes unchanged through the split and join |
| DisplayNumbers.RemoveSeparators | st_plugins/display_numbers.py:166 | specification of `"".join(split_re.split(text))`: every underscore with a word character on both sides is dropped; RemoveSeparatorsSpan, RemoveSeparatorsNone and RemoveSeparatorBetweenDigits state its properties |
| DisplayNumbers.RemoveSeparatorsNone | st_plugins/display_numbers.py:51 | text without underscores is unchanged by the separator removal |
| DisplayNumbers.RemoveSeparatorBetweenDigits | st_plugins/display_numbers.py:51 | an underscore between two digit groups is removed |
| DisplayNumbers.RunLength | st_plugins/display_numbers.py:52-55 | the leading digit run is all digits and is followed by a non-digit or the end |
| DisplayNumbers.SuffixChars | st_plugins/display_numbers.py:52-55 | an integer suffix consists of the letters u and l only |
| DisplayNumbers.NotSuffix | st_plugins/display_numbers.py:52-55 | a text starting with anything but u or l is no suffix |
| DisplayNumbers.ParseNumber | st_plugins/display_numbers.py:164-182 | a parsed number always reports base 2, 8, 10 or 16 |
| DisplayNumbers.DigitCharFacts | st_plugins/display_numbers.py:213-221 | each digit written is a digit of its base with the right value, never an underscore or newline, and is '0' only for zero |
| DisplayNumbers.ToBase | st_plugins/display_numbers.py:213-221 | the format digits are non-empty digits of the base without underscores, with a leading '0' only for zero |
| DisplayNumbers.ToBaseValue | st_plugins/display_numbers.py:213-221 | the digits written read back as the number (int(format(n)) == n) |
| DisplayNumbers.RunLengthConcat | st_plugins/display_numbers.py:52-55 | a digit run followed by a non-digit has the run's length |
| DisplayNumbers.ValueLeadingZero | st_plugins/display_numbers.py:54 | a leading zero does not change the value int() reads |
| DisplayNumbers.CleanText | st_plugins/display_numbers.py:166-168 | text without underscores or a final newline reaches the patterns unchanged |
| DisplayNumbers.DecRendering | st_plugins/display_numbers.py:52 | a decimal rendering, with any suffix, matches dec_re with its value |
| DisplayNumbers.MatchDecZeroThen | st_plugins/display_numbers.py:52 | "0" followed by a non-digit that starts no suffix never matches dec_re |
| DisplayNumbers.MatchPrefixedOf | st_plugins/display_numbers.py:53-55 | "0", the radix letter in either case, digits and a suffix match hex_re or bin_re with the digits' value |
| DisplayNumbers.HexRendering | st_plugins/display_numbers.py:52-53 | a hexadecimal rendering is not decimal and matches hex_re with its value |
| DisplayNumbers.BinRendering | st_plugins/display_numbers.py:52-55 | a binary rendering matches none of dec_re, hex_re and oct_re, and matches bin_re with its value |
| DisplayNumbers.OctRenderingNotDec | st_plugins/display_numbers.py:52 | an octal rendering never matches dec_re |
| DisplayNumbers.OctRenderingOct | st_plugins/display_numbers.py:54 | an octal rendering matches oct_re with its value |
| DisplayNumbers.OctRendering | st_plugins/display_numbers.py:52-54 | an octal rendering is neither decimal nor hexadecimal and parses as octal with its value |
| DisplayNumbers.ParseConvert | st_plugins/display_numbers.py:164-221 | parse_number(convert_number(n, base) + suffix) gives n back, in base 10, 16 or 2 as asked and octal for any other base |
| DisplayNumbers.ConvertNumber | st_plugins/display_numbers.py:213-221 | specification of convert_number: decimal digits for 10, "0x" and hex digits for 16, "0b" and binary digits for 2, "0" and octal digits otherwise; ParseConvertRoundTrip proves parse_number reads it back |
| DisplayNumbers.ParseConvertRoundTrip | st_plugins/display_numbers.py:164-221 | parse_number(convert_number(n, base)) gives the number and the rendered base back |
| DisplayNumbers.LeadingZeroIsOctal | st_plugins/display_numbers.py:52-54 | a zero followed by octal digits is read as octal, never decimal |
| DisplayNumbers.LeadingZeroNonOctal | st_plugins/display_numbers.py:52-55 | a zero followed by digits that are not all octal (such as 09) is no number at all |
| DisplayNumbers.LeadingZeroNotDecimal | st_plugins/display_numbers.py:52 | a zero followed by more digits is never decimal |
| DisplayNumbers.NonOctalRun | st_plugins/display_numbers.py:54 | what follows the octal run of such digits is no suffix |
| DisplayNumbers.SeparatedDecimal | st_plugins/display_numbers.py:51 | an underscore anywhere inside a decimal rendering is read past: the number is still parsed in base 10 |
| DisplayNumbers.BitDecompose | st_plugins/display_numbers.py:297 | a number is the bits above k, bit k and the bits below |
| DisplayNumbers.ChangeBitParts | st_plugins/display_numbers.py:297 | num ^ (1 << offset) keeps the bits above and below and inverts bit k |
| DisplayNumbers.ChangeBit | st_plugins/display_numbers.py:297 | specification of `num ^ (1 << offset)`: bit k subtracted when set, added when clear; ChangeBitParts, ChangeBitExact and ChangeBitTwice state its properties |
| DisplayNumbers.ChangeBitExact | st_plugins/display_numbers.py:297 | flipping bit k changes bit k and no other bit |
| DisplayNumbers.ChangeBitTwice | st_plugins/display_numbers.py:297 | flipping the same bit twice gives the number back |
| DisplayNumbers.BitLengthBounds | st_plugins/display_numbers.py:188 | bit_length(n) bits hold n and one fewer do not |
| DisplayNumbers.BitLengthAtMost | st_plugins/display_numbers.py:188 | k bits suffice for n exactly when n < 2^k |
| DisplayNumbers.AlignUp | st_plugins/display_numbers.py:188 | x + ((-x) & (m - 1)) is the multiple of m in [x, x + m) |
| DisplayNumbers.AlignUpUnique | st_plugins/display_numbers.py:188 | that multiple is the only one in the range |
| DisplayNumbers.BitsInWord | st_plugins/display_numbers.py:224-231 | an integer setting gives 8 bits per byte, a bool counts as 0 or 1, and any other value gives 32 |
| DisplayNumbers.PopupWordSize | st_plugins/display_numbers.py:187-188 | the popup width is at least the setting and the bit length, holds the number, and is the setting or the bit length rounded up to a nibble |
| DisplayNumbers.ToBytes | st_plugins/display_numbers.py:332 | to_bytes gives exactly `len` byte values |
| DisplayNumbers.FromBytesBound | st_plugins/display_numbers.py:342 | len bytes read as a number below 256^len |
| DisplayNumbers.FromToBytes | st_plugins/display_numbers.py:332-342 | from_bytes(to_bytes(n, len)) == n for a number that fits |
| DisplayNumbers.ToFromBytes | st_plugins/display_numbers.py:332-342 | to_bytes(from_bytes(bs), len(bs)) == bs |
| DisplayNumbers.FromBytesSplit | st_plugins/display_numbers.py:342 | big-endian reading of a concatenation composes by shifting |
| DisplayNumbers.FromBytesZero | st_plugins/display_numbers.py:342 | bytes read as zero exactly when all are zero |
| DisplayNumbers.SwapWords | st_plugins/display_numbers.py:338-340 | the word reversal keeps the number of bytes |
| DisplayNumbers.SwapWordsBytes | st_plugins/display_numbers.py:338-340 | reversing words of bytes gives bytes |
| DisplayNumbers.SwapWordsTwice | st_plugins/display_numbers.py:338-340 | reversing every word twice gives the bytes back |
| DisplayNumbers.SwapWordsSnoc | st_plugins/display_numbers.py:338-340 | one more word in the input appends its reversal to the output |
| DisplayNumbers.ByteLength | st_plugins/display_numbers.py:326-330 | bytes_len is the bit length rounded up to a multiple of `bits`, in bytes, a whole number of words |
| DisplayNumbers.SwapWordsLoop | st_plugins/display_numbers.py:336-340 | the nested loops copy each word backwards, giving the word reversal of the bytes |
| DisplayNumbers.SwapEndiannessBytes | st_plugins/display_numbers.py:326-342 | the command's arithmetic computes the swapped number of the specification |
| DisplayNumbers.SwapEndianness | st_plugins/display_numbers.py:326-342 | specification of the swap: the number in big-endian bytes of its aligned length, the bytes of each word reversed, read back; SwapEndiannessBytes ties the loops to it and SwapTwice, SwapKeepsWidth state its properties |
| DisplayNumbers.TopWordOfNumber | st_plugins/display_numbers.py:326-330 | a nonzero number fills at least one word and its top word is nonzero |
| DisplayNumbers.SwapKeepsTopWord | st_plugins/display_numbers.py:338-340 | reversing the words keeps a nonzero top word nonzero |
| DisplayNumbers.ByteLengthOf | st_plugins/display_numbers.py:326-330 | a number filling exactly len bytes with a nonzero top word has byte length len |
| DisplayNumbers.SwapKeepsWidth | st_plugins/display_numbers.py:326-342 | the swapped number has the same byte length as the original |
| DisplayNumbers.FitsByteLength | st_plugins/display_numbers.py:326-332 | the number fits the byte length used, so to_bytes loses nothing |
| DisplayNumbers.SwapTwice | st_plugins/display_numbers.py:314-344 | swapping the endianness twice with the same word size gives the number back |
| DisplayNumbers.RenderingNotSpace | st_plugins/display_numbers.py:213-221 | a rendering neither starts nor ends with whitespace, so strip keeps it |
| DisplayNumbers.ConvertCommand | st_plugins/display_numbers.py:279-291 | several selections hide the popup, none raises IndexError; one selection is replaced exactly when its stripped text parses, and then by the parsed number rendered in the new base, which parses back as that number in that base |
| DisplayNumbers.ConvertRendered | st_plugins/display_numbers.py:279-291 | a selection holding a rendering of n, with any suffix, is replaced by n in the new base |
| DisplayNumbers.StripRendering | st_plugins/display_numbers.py:285 | a rendering with a suffix has no surrounding whitespace to strip |
| DisplayNumbers.ChangeBitCommand | st_plugins/display_numbers.py:294-297 | without a selection IndexError; otherwise the first selection becomes the popup number with the bit flipped, parsing back in the popup's base |
| DisplayNumbers.SwapCommand | st_plugins/display_numbers.py:314-344 | several selections hide the popup, none raises IndexError; one selection is replaced exactly when its stripped text parses, and then by the swapped number rendered in the base it was written in, which parses back as the swapped number in that base |
| DisplayNumbers.SwapRendered | st_plugins/display_numbers.py:314-344 | a rendered number is replaced by its swapped value in the base it was written in |
| DisplayNumbers.SwapCommandTwice | st_plugins/display_numbers.py:314-344 | running the swap again on the text it wrote restores the original rendering |
| DisplayNumbers.ZeroPad | st_plugins/display_numbers.py:196 | "{:0=Nb}" pads with zeros on the left up to the width and keeps the digits |
| DisplayNumbers.PopupContent | st_plugins/display_numbers.py:185-210 | the popup's word size is the one computed from the setting and the number |
| DisplayNumbers.PopupBinary | st_plugins/display_numbers.py:187-196 | the padded binary field has exactly the word size in digits and still reads as the number |
| DisplayNumbers.PaddedValue | st_plugins/display_numbers.py:196 | zero padding does not change the value |
| DisplayNumbers.BinaryLength | st_plugins/display_numbers.py:188-196 | a binary rendering has bit_length digits, one for zero |
| TextDebugging.Dispatch | st_plugins/text_debugging.py:51-64 | no selection does nothing; otherwise the first scope scoring at the first selection's begin, in the order Python, JavaScript, PHP, picks the command, and none of them gives the "no support" message |
| TextDebugging.Basename | st_plugins/text_debugging.py:96-150 | the base name is a slash-free tail of the path, preceded by "/" when shorter than the path |
| TextDebugging.BasenameOfPath | st_plugins/text_debugging.py:96-150 | the base name of dir/file is the file |
| TextDebugging.Name | st_plugins/text_debugging.py:95-100 | the file's base name, else the view's name, else "Untitled" |
| TextDebugging.Empties | st_plugins/text_debugging.py:74-76 | the kept cursors are empty regions of the selection, no more of them than regions |
| TextDebugging.NoEmpties | st_plugins/text_debugging.py:85-87 | there is no empty cursor exactly when every region selects something |
| TextDebugging.Texts | st_plugins/text_debugging.py:77-78 | every region gives either a cursor or a text |
| TextDebugging.EmptiesWithin | st_plugins/text_debugging.py:74-76 | the empty cursors stay inside the buffer |
| TextDebugging.EmptiesAfter | st_plugins/text_debugging.py:74-76 | the empty cursors after a point stay after it |
| TextDebugging.EmptiesApart | st_plugins/text_debugging.py:74-76 | the empty cursors of ordered, disjoint regions are ordered and disjoint |
| TextDebugging.EmptiesSelectionSet | st_plugins/text_debugging.py:74-83 | the empty cursors of a selection set form a selection set |
| TextDebugging.KeptNone | st_plugins/text_debugging.py:83 | subtracting nothing leaves the selection as it is |
| TextDebugging.KeptRemove | st_plugins/text_debugging.py:83-138 | subtracting one more region removes it from the selection, unless it is empty |
| TextDebugging.KeptAll | st_plugins/text_debugging.py:83-138 | once every region was subtracted only the empty cursors remain selected |
| TextDebugging.CollectAdvance | st_plugins/text_debugging.py:74-83 | reading region i adds it to the cursors when empty and its text otherwise |
| TextDebugging.KeptAdvance | st_plugins/text_debugging.py:83-138 | subtracting region i from the selection removes exactly that region when it is not empty |
| TextDebugging.CollectStep | st_plugins/text_debugging.py:74-83 | one iteration advances the cursors, the texts and the selection as the specification says, the buffer untouched |
| TextDebugging.Collect | st_plugins/text_debugging.py:73-83 | the collecting loop returns the empty cursors and the selected texts in order, and leaves only the cursors selected |
| TextDebugging.PyLines | st_plugins/text_debugging.py:79-82 | one variable line per selected text |
| TextDebugging.PyDebugLines | st_plugins/text_debugging.py:79-82 | split at newlines, the debug text gives each variable its own line numbered from 1, when no variable spans lines |
| TextDebugging.BuildPyDebug | st_plugins/text_debugging.py:79-82 | the loop with its leading "\n" builds the joined variable lines |
| TextDebugging.Stripped | st_plugins/text_debugging.py:108-109 | one stripped variable per selected text |
| TextDebugging.BuildPyArgs | st_plugins/text_debugging.py:108-109 | the loop writes every stripped variable followed by ", " |
| TextDebugging.BuildPyOutput | st_plugins/text_debugging.py:102-114 | the statement is built from the variable lines when there are any, and is the bare banner otherwise |
| TextDebugging.PyOutput | st_plugins/text_debugging.py:102-114 | specification of the Python statement: the banner, the numbered variable lines and the format call with one argument per text, or the bare banner; BuildPyOutput ties the loop to it |
| TextDebugging.KeyQuotesEscaped | st_plugins/text_debugging.py:137 | every quote in a label follows a backslash |
| TextDebugging.KeyUnescaped | st_plugins/text_debugging.py:137 | unescaping a label gives back a text without backslashes |
| TextDebugging.Entries | st_plugins/text_debugging.py:133-137 | one entry per selected text |
| TextDebugging.JoinEntries | st_plugins/text_debugging.py:160-165 | the loop with its `first` flag joins the entries by ", " |
| TextDebugging.JsOutputShape | st_plugins/text_debugging.py:156-167 | the statement is the banner, followed by the entries line when there are entries, without the final newline |
| TextDebugging.JsOutput | st_plugins/text_debugging.py:156-167 | specification of the JavaScript statement before it is fitted to a line: the banner, then the entries line when there are entries; JsOutputShape states its shape |
| TextDebugging.JsLineOutput | st_plugins/text_debugging.py:169-173 | specification of the statement fitted to a cursor: each line break followed by the indent, and "line_no" replaced by the 1-based row; InsertedAtEmpties uses it |
| TextDebugging.IndentAt | st_plugins/text_debugging.py:44-48 | indent_at is the text of the cursor's line before the cursor, without a newline |
| TextDebugging.InsertStep | st_plugins/text_debugging.py:116-175 | one insertion puts the statement fitted to the current buffer at the cursor |
| TextDebugging.InsertAt | st_plugins/text_debugging.py:116-175 | the insertion loop inserts at each cursor in turn |
| TextDebugging.InsertAll | st_plugins/text_debugging.py:116-117 | specification of the insertion loop: each cursor in turn gets its statement, fitted to the buffer as it is then; InsertAllIsSplice proves it equal to one splice |
| TextDebugging.Python | st_plugins/text_debugging.py:67-120 | without an empty cursor the status message is shown, the buffer is kept and nothing stays selected; otherwise the statement is inserted at every cursor, last one first |
| TextDebugging.JavaScript | st_plugins/text_debugging.py:123-178 | the same, with the JavaScript statement fitted to each cursor's line |
| TextDebugging.SortByEndDesc | st_plugins/text_debugging.py:91-144 | the sort keeps the number of cursors |
| TextDebugging.InsertByEnd | st_plugins/text_debugging.py:93-144 | inserting into the sorted list adds exactly one element |
| TextDebugging.InsertByEndSorted | st_plugins/text_debugging.py:93-144 | inserting into a descending list keeps it descending |
| TextDebugging.SortByEndDescSorted | st_plugins/text_debugging.py:91-144 | the sort orders the cursors by end, last first |
| TextDebugging.SortByEndDescPermutes | st_plugins/text_debugging.py:91-144 | the sort keeps every cursor |
| TextDebugging.InsertByEndLast | st_plugins/text_debugging.py:93-144 | a cursor ending before all others goes last (stability) |
| TextDebugging.CursorsReversed | st_plugins/text_debugging.py:93-144 | read backwards, the cursors of a selection set end later and later |
| TextDebugging.SortIsReversal | st_plugins/text_debugging.py:93-144 | for the cursors of a selection set the sort is their reversal |
| TextDebugging.InsertEdits | st_plugins/text_debugging.py:116-175 | one insertion edit per cursor |
| TextDebugging.StatementPrefix | st_plugins/text_debugging.py:170-174 | the statement for a cursor depends only on the text before it, so earlier insertions at later cursors do not change it |
| TextDebugging.InsertEditsOrdered | st_plugins/text_debugging.py:116-175 | the insertion edits at the cursors are in order inside the buffer |
| TextDebugging.InsertEditsPrefix | st_plugins/text_debugging.py:169-175 | the edits depend only on the buffer before the last cursor |
| TextDebugging.InsertEditsSnoc | st_plugins/text_debugging.py:169-175 | one more cursor adds its own edit at the end |
| TextDebugging.InsertOneSplice | st_plugins/text_debugging.py:89-93 | inserting at the last cursor first leaves the edits before it unchanged |
| TextDebugging.InsertAllIsSplice | st_plugins/text_debugging.py:89-117 | inserting from the last cursor to the first into the current buffer equals one splice of all insertions into the original buffer, as the comment at lines 89-90 promises |
| TextDebugging.InsertedAtEmpties | st_plugins/text_debugging.py:89-117 | both commands insert the statement at every empty cursor of the selection, each fitted to the original text, all in one splice |
| CodeFormatter.WholeFileAllowed | st_plugins/code_formatter.py:506-525 | a boolean setting allows the whole file exactly when false; a list of syntaxes exactly when the view's syntax is not among them |
| CodeFormatter.FormatsWholeFile | st_plugins/code_formatter.py:307-309 | the whole file is formatted when ignore_selection is set, or for a single empty caret where whole-file formatting is allowed; StartJobs uses it |
| CodeFormatter.StartJobs | st_plugins/code_formatter.py:278-333 | no command gives the error panel; the whole buffer is one job when asked or for a single empty caret that is allowed; otherwise one job per selection |
| CodeFormatter.SelectionJobs | st_plugins/code_formatter.py:317-330 | only selections with text start a job, each running and tied to its selection |
| CodeFormatter.SelectionJobsWithin | st_plugins/code_formatter.py:317-330 | every job holds the text of its selection, inside the buffer |
| CodeFormatter.SelectionJobsApart | st_plugins/code_formatter.py:317-330 | the jobs of a selection set keep the selections' order and do not overlap |
| CodeFormatter.StripTerminator | st_plugins/code_formatter.py:262-264 | exactly one trailing "\r\n", "\r" or "\n" is removed, and nothing else |
| CodeFormatter.StripTerminatorOnce | st_plugins/code_formatter.py:262-264 | a result without a trailing terminator loses exactly the one added |
| CodeFormatter.RunJob | st_plugins/code_formatter.py:212-271 | a finished job is formatted exactly when there is a command, the input is not blank and the process exited with no error output; blank input fails with "Empty STDIN."; a selection's result loses a trailing terminator, a whole file's does not |
| CodeFormatter.Alives | st_plugins/code_formatter.py:439-442 | the jobs carried to the next round are the running ones |
| CodeFormatter.Successes | st_plugins/code_formatter.py:449-450 | the jobs collected are formatted ones |
| CodeFormatter.RoundPartitions | st_plugins/code_formatter.py:439-450 | every job of a round is carried on, collected or counted as failed, exactly once |
| CodeFormatter.LastErrorAppend | st_plugins/code_formatter.py:444-455 | the error carries over from round to round: rounds compose |
| CodeFormatter.LastErrorNoFailure | st_plugins/code_formatter.py:444-447 | without a failed job the earlier error stays |
| CodeFormatter.LastErrorIsLast | st_plugins/code_formatter.py:444-447 | the error kept is that of the last failed job |
| CodeFormatter.HandleStep | st_plugins/code_formatter.py:439-450 | one job goes to the next round when running, is collected when formatted, and leaves its error when failed |
| CodeFormatter.HandledAdvance | st_plugins/code_formatter.py:439-450 | the loop state after one more job is the specification's |
| CodeFormatter.HandleThreads | st_plugins/code_formatter.py:421-457 | with running jobs the round waits for them with the collected jobs and error; otherwise the callback gets all formatted jobs and the last error |
| CodeFormatter.HandleThread | st_plugins/code_formatter.py:403-419 | a running job is polled again, a formatted one proceeds, a failed one shows its error |
| CodeFormatter.ReplaceFile | st_plugins/code_formatter.py:335-361 | a result equal to the text sent reports "No formatting required"; otherwise the whole file gets the result and is saved when asked |
| CodeFormatter.SortByBegin | st_plugins/code_formatter.py:382 | the sorted jobs are a permutation of the jobs |
| CodeFormatter.InsertByBegin | st_plugins/code_formatter.py:382 | inserting a job adds exactly that job |
| CodeFormatter.InsertByBeginSorted | st_plugins/code_formatter.py:382 | inserting into an ascending list keeps it ascending |
| CodeFormatter.SortByBeginSorted | st_plugins/code_formatter.py:382 | the jobs come in ascending order of their selections' begins |
| CodeFormatter.Utf8LengthAscii | st_plugins/code_formatter.py:191 | an ASCII text has as many UTF-8 bytes as characters |
| CodeFormatter.AsWrittenAscii | st_plugins/code_formatter.py:386-392 | with ASCII texts the byte-counted offset equals the character-counted one |
| CodeFormatter.HeldTextsMatch | st_plugins/code_formatter.py:321 | a job's text is as long as its selection |
| CodeFormatter.UpdateListShifted | st_plugins/code_formatter.py:380-393 | the issued replacements are the changed selections' edits, each shifted by what the earlier replacements added |
| CodeFormatter.UpdateList | st_plugins/code_formatter.py:380-393 | specification of the corrected update loop: changed jobs in order, each shifted by what the earlier replacements added in characters; UpdateListShifted, SelectionsApplied and FinishedSelectionsApplied state its properties |
| CodeFormatter.UpdateListAsWritten | st_plugins/code_formatter.py:380-393 | specification of the update loop as written, the growth subtracting the UTF-8 byte length; AsWrittenAscii and OffsetCountsBytes relate it to UpdateList |
| CodeFormatter.ChangedOrdered | st_plugins/code_formatter.py:382-393 | the edits of jobs of separate ordered selections are in order inside the buffer |
| CodeFormatter.SelectionsApplied | st_plugins/code_formatter.py:379-393 | applying the replacements one after the other replaces every changed selection by its result, as one splice of the original buffer |
| CodeFormatter.SelectionJobsSeparate | st_plugins/code_formatter.py:317-330 | the jobs of a selection set do not overlap, in any order |
| CodeFormatter.SeparatePermutes | st_plugins/code_formatter.py:439-450 | the jobs finishing in another order stay separate |
| CodeFormatter.HeldPermutes | st_plugins/code_formatter.py:439-450 | the jobs finishing in another order still hold their texts |
| CodeFormatter.SortedApart | st_plugins/code_formatter.py:382 | separate jobs sorted by begin are in the order of the selections |
| CodeFormatter.FinishedSelectionsApplied | st_plugins/code_formatter.py:363-401 | whatever order the jobs finish in, the replacements issued replace every changed selection by its result, all in the buffer the selections were read from |
| CodeFormatter.ExampleJobs | st_plugins/code_formatter.py:363-393 | the example jobs are formatted selection jobs |
| CodeFormatter.ExampleIsSelections | st_plugins/code_formatter.py:317-330 | the example is two selections of "éxa" holding their text |
| CodeFormatter.ExampleSplice | st_plugins/code_formatter.py:363-393 | the intended result of the example is "exb" |
| CodeFormatter.ExampleAsWritten | st_plugins/code_formatter.py:386-392 | as written the example becomes "eba" |
| CodeFormatter.OffsetCountsBytes | st_plugins/code_formatter.py:386-392 | counting the offset in UTF-8 bytes moves the second replacement one character too far left: "eba" instead of "exb" |
| CodeFormatter.UpdateStep | st_plugins/code_formatter.py:383-393 | an unchanged result is skipped with the offset kept; otherwise the shifted replacement is issued and the offset grows by the result's growth in characters (the corrected offset; see "Left out") |
| CodeFormatter.UpdateListAt | st_plugins/code_formatter.py:382-393 | the loop's step matches the specification's list from position i |
| CodeFormatter.Updates | st_plugins/code_formatter.py:380-393 | the loop issues the replacements of UpdateList, the corrected character-counted specification (see "Left out") |
| CodeFormatter.ReplaceSelections | st_plugins/code_formatter.py:363-401 | an error shows the error panel; otherwise the replacements of UpdateList (corrected offsets; see "Left out") are issued, or "Nothing to format" when there are none |
| CodeFormatter.NothingChanged | st_plugins/code_formatter.py:383-401 | with every result equal to its text nothing is issued |
| CodeFormatter.EofText | st_plugins/code_formatter.py:589-590 | the text gets a final "\n" only when the view wants one and lacks it |
| CodeFormatter.EofTextIdempotent | st_plugins/code_formatter.py:589-590 | adding the final newline twice adds it once |
| CodeFormatter.ReplaceAll | st_plugins/code_formatter.py:571-573 | the regions are replaced one after the other |
| CodeFormatter.UpdateContent | st_plugins/code_formatter.py:557-573 | a non-empty text replaces the whole view; otherwise the regions are replaced one after the other |
| FindResults.FirstAfter | st_plugins/better_find_results/__init__.py:142 | the index found is the first match beginning after the point, and none means every match begins at or before it |
| FindResults.LastBefore | st_plugins/better_find_results/__init__.py:152 | the index found is the last match beginning before the point, and none means every match begins at or after it |
| FindResults.NextMatch | st_plugins/better_find_results/__init__.py:140-142 | the first match after the caret; failing that the first match when cycling, else none |
| FindResults.PrevMatch | st_plugins/better_find_results/__init__.py:150-152 | the last match before the caret; failing that the last match when cycling, else none |
| FindResults.JumpSide | st_plugins/better_find_results/__init__.py:140-152 | a jump target is one of the matches, and without cycling it lies on the side asked for |
| FindResults.LowerBound | st_plugins/better_find_results/__init__.py:146 | the end of the last footer ending before the caret, or 0 when there is none |
| FindResults.UpperBound | st_plugins/better_find_results/__init__.py:147 | the end of the first footer ending after the caret, or the view's size when there is none |
| FindResults.Between | st_plugins/better_find_results/__init__.py:148 | a match is kept exactly when it begins strictly between the bounds |
| FindResults.FilterMatches | st_plugins/better_find_results/__init__.py:144-148 | specification of filter_matches: the matches strictly between the two footer bounds of the caret; Between and SameBlock state its properties |
| FindResults.JumpTarget | st_plugins/better_find_results/__init__.py:130-152 | specification of run's target: the next or previous match of the caret's block, with the cycling default; JumpSide and Jump state its properties |
| FindResults.SameBlock | st_plugins/better_find_results/__init__.py:144-148 | with the footers in buffer order, no footer lies between the caret and a kept match: jumps stay in the caret's file block |
| FindResults.Jump | st_plugins/better_find_results/__init__.py:129-185 | the buffer is kept; a target found becomes the only selection, as a caret at the file name for file jumps; no target leaves the selection alone |
| FindResults.GotoMatch | st_plugins/better_find_results/__init__.py:154-156 | the match becomes the only selection |
| FindResults.DigitNotSpace | st_plugins/better_find_results/__init__.py:98 | digits are not whitespace |
| FindResults.SpaceRun | st_plugins/better_find_results/__init__.py:98 | the longest whitespace prefix |
| FindResults.DigitRun | st_plugins/better_find_results/__init__.py:98 | the longest digit run from a point |
| FindResults.LineNoOfMatch | st_plugins/better_find_results/__init__.py:95-101 | a line number is returned exactly when the pattern matches, and it is the longest group any match has |
| FindResults.LineNoOf | st_plugins/better_find_results/__init__.py:95-101 | specification of get_line_no: the digits after the leading whitespace, backing off one digit when nothing follows them on the line; LineNoOfMatch, LineNoForced and LineNoBacktracks state its properties |
| FindResults.LineNoForced | st_plugins/better_find_results/__init__.py:98 | every match puts its group right after the leading whitespace, within the digit run |
| FindResults.LineNoBacktracks | st_plugins/better_find_results/__init__.py:98 | a line ending in its digits gives all but the last digit: "  123" yields "12" |
| FindResults.HeaderOf | st_plugins/better_find_results/__init__.py:108 | the group is the one non-empty text that the line ends with ":" after, and none when there is none |
| FindResults.HeadsUnique | st_plugins/better_find_results/__init__.py:108 | that group is the line less one final line break and its final ":" |
| FindResults.LineAbove | st_plugins/better_find_results/__init__.py:112 | view.line(begin - 1) is the single line just above |
| FindResults.LineEndAt | st_plugins/better_find_results/__init__.py:112 | the line end is the next line break |
| FindResults.Up | st_plugins/better_find_results/__init__.py:112 | the line above is a line and starts earlier |
| FindResults.Above | st_plugins/better_find_results/__init__.py:104-113 | the walk up returns a line or gives up |
| FindResults.AboveFirst | st_plugins/better_find_results/__init__.py:104-113 | the line found is the first one, from the caret's line up and above offset 0, whose text is accepted; none means no such line |
| FindResults.AboveLift | st_plugins/better_find_results/__init__.py:106-112 | a rejected line hands the search to the line above with the same lines to come |
| FindResults.AboveHere | st_plugins/better_find_results/__init__.py:106-111 | an accepted line below offset 0 is the one returned |
| FindResults.AboveStep | st_plugins/better_find_results/__init__.py:106-112 | a rejected line leads to the same answer as the line above |
| FindResults.WalkUp | st_plugins/better_find_results/__init__.py:106-113 | the while loop returns the line of the upward search |
| FindResults.GetFile | st_plugins/better_find_results/__init__.py:103-113 | get_file returns the path of the first header line naming an existing path, walking up |
| FindResults.GetBegin | st_plugins/better_find_results/__init__.py:206-216 | with exactly one selection the first file-name line walking up from it, none otherwise |
| FindResults.LastLineBelow | st_plugins/better_find_results/__init__.py:226 | after a last line without a line break view.line(end + 1) is that line again |
| FindResults.LineStartFrom | st_plugins/better_find_results/__init__.py:221-226 | the start of a line for a point inside it |
| FindResults.GetEndAsWrittenLoops | st_plugins/better_find_results/__init__.py:218-227 | as written, for the buffer "a" the loop condition stays true, the line is never empty and the next line is the same line: the loop never ends |
| FindResults.Below | st_plugins/better_find_results/__init__.py:218-227 | the walk down returns a line or none |
| FindResults.BelowFirst | st_plugins/better_find_results/__init__.py:218-227 | the line found is empty and every line between it and the caret's is non-empty; none means all lines below are non-empty |
| FindResults.LineDown | st_plugins/better_find_results/__init__.py:226 | the line below starts just after the line break |
| FindResults.GetEnd | st_plugins/better_find_results/__init__.py:218-227 | with exactly one selection the first empty line downward, none at the buffer's end or otherwise |
| FindResults.FileOf | st_plugins/better_find_results/__init__.py:103-113 | a file found is a non-empty existing path |
| FindResults.OpenFor | st_plugins/better_find_results/__init__.py:86-93 | a selection opens its file when found, at its line number exactly when one is found too |
| FindResults.Opens | st_plugins/better_find_results/__init__.py:86-93 | at most one open per selection |
| FindResults.OpensExist | st_plugins/better_find_results/__init__.py:86-110 | every path opened exists |
| FindResults.OpenOne | st_plugins/better_find_results/__init__.py:87-93 | the loop body for one selection |
| FindResults.OpenFiles | st_plugins/better_find_results/__init__.py:83-93 | the loop opens the files of the specification in order |
| FindResults.FileLines | st_plugins/better_find_results/__init__.py:126 | at most one name per line |
| FindResults.GetFiles | st_plugins/better_find_results/__init__.py:123-126 | specification of get_files: the names of the lines of the buffer that match `^([^\s].+):$`; FileLinesNamed and FileLinesAppend state its properties |
| FindResults.FileLinesNamed | st_plugins/better_find_results/__init__.py:126 | a name is listed exactly when some line names it as `^([^\s].+):$` |
| FindResults.FileLinesAppend | st_plugins/better_find_results/__init__.py:126 | the names of two stretches of lines come one after the other |
| FindResults.OpenAll | st_plugins/better_find_results/__init__.py:116-121 | anything but the "Find Results" view opens nothing |
| MessagePanel.Appended | st_plugins/message_panel/__init__.py:99-112 | the appended text begins with the bold timestamp, ends with one line break, and has no whitespace before it |
| MessagePanel.StampedStrip | st_plugins/message_panel/__init__.py:99-111 | stripping the stamped message never cuts into the stamp and leaves no trailing whitespace |
| MessagePanel.RStripKeeps | st_plugins/message_panel/__init__.py:111 | right-stripping keeps a head that ends in a non-space |
| MessagePanel.Plugin.Display | st_plugins/message_panel/__init__.py:91-122 | the stamped, stripped message is appended to the panel, the panel's id is recorded, and the path regions are recomputed from the matches in the new text |
| MessagePanel.Clear | st_plugins/message_panel/__init__.py:390-398 | the panel's text and path regions are removed |
| MessagePanel.PathRegion | st_plugins/message_panel/__init__.py:141-145 | the region has the path's length and ends just before the closing ")" |
| MessagePanel.PathRegionText | st_plugins/message_panel/__init__.py:139-145 | the path region lies inside the match and covers exactly the path |
| MessagePanel.PathRegions | st_plugins/message_panel/__init__.py:141-145 | one path region per match, in order |
| MessagePanel.PathRegionsText | st_plugins/message_panel/__init__.py:139-145 | every path region holds its own path |
| MessagePanel.GetPathRegions | st_plugins/message_panel/__init__.py:124-147 | the enumerate loop builds the path regions of the specification |
| MessagePanel.CursorPos | st_plugins/message_panel/__init__.py:299-312 | the begin of the first selection, or -1 without one |
| MessagePanel.OpensIsContainment | st_plugins/message_panel/__init__.py:275-282 | since the cursor is the selection's begin, the double-click test is containment of the selection |
| MessagePanel.FirstOpening | st_plugins/message_panel/__init__.py:278-284 | the region found is the first whose test passes, none when no region passes |
| MessagePanel.OnDoubleClick | st_plugins/message_panel/__init__.py:267-292 | the stripped text of the first path region holding the selection is opened when that path exists, nothing otherwise |
| MessagePanel.HoverPath | st_plugins/message_panel/__init__.py:206-211 | only a hover over text in the panel shows a path; there a path is shown exactly when some region meets the hovered line, and it is the stripped text of the first such region |
| MessagePanel.FirstMeeting | st_plugins/message_panel/__init__.py:208-211 | a path is found exactly when some region meets the line, and it is the stripped text of the first region that does, as the loop's break selects |
| MessagePanel.FirstMeetingFrom | st_plugins/message_panel/__init__.py:208-211 | the index found is the first region from the start index on that meets the line; none means no region meets it |
| MessagePanel.PanelIsActive | st_plugins/message_panel/__init__.py:315-328 | false without a window; otherwise whether the window shows the plugin's output panel |
| MessagePanel.Toggle | st_plugins/message_panel/__init__.py:175-183 | the panel is hidden exactly when it is the one shown, and shown otherwise |
| MessagePanel.Panel.constructor | st_plugins/message_panel/__init__.py:363-388 | a new panel is empty and has no path links |
| MessagePanel.Plugin.constructor | st_plugins/message_panel/__init__.py:59 | no panel id is recorded at load |
| PanelMessage.PathOf | st_plugins/__init__.py:162-171 | a view's own file path replaces the argument; a window keeps the argument |
| PanelMessage.TitleLine | st_plugins/__init__.py:173-174 | the title line is a "# " heading, marked "DEBUG::" for debug messages, ending with the title |
| PanelMessage.FileLink | st_plugins/__init__.py:176-177 | the link is a markdown "[File](path)" link |
| PanelMessage.Heading | st_plugins/__init__.py:173-182 | the title line and the link merged with " - " when both exist, either one alone, and nothing exactly when neither |
| PanelMessage.Message | st_plugins/__init__.py:173-191 | no message exactly when title, path and body are all empty; otherwise the heading, followed by the body block one line break apart |
| PanelMessage.Deliver | st_plugins/__init__.py:190-196 | with a window the panel gets the message followed by the "***" rule; without one an error dialog shows the bare message |
| PanelMessage.DisplayMessage | st_plugins/__init__.py:158-196 | a debug message is dropped unless the logging level is "debug" in any case; otherwise the built list of parts is joined and delivered as the specification says |
| PanelMessage.JoinPair | st_plugins/__init__.py:182-191 | joining two parts puts the separator between them |
| PanelMessage.PanelText | st_plugins/__init__.py:173-194 | in the panel a titled message begins with its title line and ends with the rule |
| SidebarCommands.Literal | st_plugins/sidebar_context_commands.py:574 | a literal beginning with a digit reads as a non-negative number |
| SidebarCommands.ParseInt | st_plugins/sidebar_context_commands.py:574 | specification of int(): the stripped text read as a signed decimal, None where Python raises ValueError; ParseIntToString and NotANumber state its properties |
| SidebarCommands.NatToStringValue | st_plugins/sidebar_context_commands.py:574 | the digits of a number read back as the number |
| SidebarCommands.ParseIntToString | st_plugins/sidebar_context_commands.py:574 | int() reads back what str() writes |
| SidebarCommands.LiteralToString | st_plugins/sidebar_context_commands.py:574 | a rendered integer has no surrounding whitespace and is read back as itself |
| SidebarCommands.LiteralOfDigits | st_plugins/sidebar_context_commands.py:574 | a run of plain digits reads as its decimal value |
| SidebarCommands.Token | st_plugins/sidebar_context_commands.py:166-168 | each operation is a two-character token ending in "=" |
| SidebarCommands.Find | st_plugins/sidebar_context_commands.py:572-573 | an occurrence found fits inside the condition |
| SidebarCommands.FindFirst | st_plugins/sidebar_context_commands.py:572-573 | the occurrence found is the first, and none means the operation does not occur |
| SidebarCommands.Row | st_plugins/sidebar_context_commands.py:571-574 | the inner loop takes one step per condition, each as the specification of one step says |
| SidebarCommands.All | st_plugins/sidebar_context_commands.py:578 | all() is true exactly when every element is |
| SidebarCommands.AllSnoc | st_plugins/sidebar_context_commands.py:574-578 | appending one comparison conjoins it |
| SidebarCommands.StepsAppend | st_plugins/sidebar_context_commands.py:569-578 | steps that do not raise contribute their checks and leave the rest to the later steps |
| SidebarCommands.StepsOfOperations | st_plugins/sidebar_context_commands.py:166-168 | the outer loop makes three passes, "<=", ">=" and "!=" in that order |
| SidebarCommands.IsCorrectLength | st_plugins/sidebar_context_commands.py:549-578 | an integer condition tests equality; a list is tested by the nested loops, an error stopping both loops with what was gathered |
| SidebarCommands.Pass | st_plugins/sidebar_context_commands.py:571-575 | one pass of the inner loop gathers the comparisons until a condition raises |
| SidebarCommands.Evaluate | st_plugins/sidebar_context_commands.py:571-574 | specification of one condition: skipped when the operation is absent, an error when the split or int() raises, otherwise the comparison of the length; RowCons, Present and Malformed state its cases |
| SidebarCommands.RowCons | st_plugins/sidebar_context_commands.py:571-574 | a skipped condition adds nothing, a raising one ends the loops, a compared one conjoins its result |
| SidebarCommands.Step | st_plugins/sidebar_context_commands.py:572-574 | the loop body computes the specification's outcome of one condition |
| SidebarCommands.WellFormedConditions | st_plugins/sidebar_context_commands.py:549-578 | with no condition that raises the result is exactly the conjunction of all comparisons made |
| SidebarCommands.NoConditions | st_plugins/sidebar_context_commands.py:578 | an empty list of conditions accepts every length |
| SidebarCommands.Absent | st_plugins/sidebar_context_commands.py:572 | an operation absent from a three-character condition is skipped |
| SidebarCommands.ParseDigit | st_plugins/sidebar_context_commands.py:574 | int() of one digit is its value |
| SidebarCommands.Present | st_plugins/sidebar_context_commands.py:572-574 | "<=n" and its like compare the length with n |
| SidebarCommands.Between | st_plugins/sidebar_context_commands.py:549-578 | [">=a", "<=b"] accepts exactly the lengths from a to b |
| SidebarCommands.TwoRows | st_plugins/sidebar_context_commands.py:570-578 | the three passes over two conditions combine their two comparisons |
| SidebarCommands.BetweenRows | st_plugins/sidebar_context_commands.py:570-574 | over [">=a", "<=b"] each pass compares only the condition holding its operation |
| SidebarCommands.Malformed | st_plugins/sidebar_context_commands.py:572-575 | "x<=y" raises in the "<=" pass |
| SidebarCommands.SplitMalformed | st_plugins/sidebar_context_commands.py:573 | splitting "x<=y" at "<=" leaves "y" |
| SidebarCommands.NotANumber | st_plugins/sidebar_context_commands.py:574 | "y" is not an integer |
| SidebarCommands.ErrorKeepsGathered | st_plugins/sidebar_context_commands.py:569-578 | a malformed "<=" condition stops the loops before ">=a" is compared, so every length is accepted |
| SidebarCommands.Merge | st_plugins/sidebar_context_commands.py:508 | the merged settings have the keys of both, the entry's values winning |
| SidebarCommands.FirstUsable | st_plugins/sidebar_context_commands.py:500-508 | the entry taken is the first with a command, not made invisible with false, and executable; none when there is none |
| SidebarCommands.GetSettings | st_plugins/sidebar_context_commands.py:482-510 | a missing id or a disabled command gives nothing; otherwise the first usable entry merged over the defaults, nothing when no entry is usable |
| SidebarCommands.MergedComplete | st_plugins/sidebar_context_commands.py:459-508 | every merged settings dictionary has the keys the commands read without a default |
| SidebarCommands.PathsFor | st_plugins/sidebar_context_commands.py:277-282 | "folder" uses the directories, "file" the files, anything else all paths |
| SidebarCommands.IsVisible | st_plugins/sidebar_context_commands.py:512-546 | without settings the item is hidden |
| SidebarCommands.VisibilityRules | st_plugins/sidebar_context_commands.py:512-546 | an explicit bool decides, an integer tests the number of paths, an empty list shows the item, and otherwise any paths show it, or exactly one when multiple paths are not allowed |
| SidebarCommands.PathArgs | st_plugins/sidebar_context_commands.py:294-298 | each path is appended after its prefix |
| SidebarCommands.PerPath | st_plugins/sidebar_context_commands.py:299-307 | one command per path: the command, the arguments substituted for that path, and the path when pass_path_to_cmd is true |
| SidebarCommands.Run | st_plugins/sidebar_context_commands.py:241-340 | no settings or no command gives the message; no selected paths gives the status; otherwise the commands of the specification are launched in order |
| SidebarCommands.AddPath | st_plugins/sidebar_context_commands.py:292-307 | the loop body for one path keeps the combined command and the launched list as the specification says |
| SidebarCommands.CombinedCommand | st_plugins/sidebar_context_commands.py:289-324 | with exec_once, allow_multiple and pass_path_to_cmd the one command is the command, its arguments, then every path after its prefix |
| SidebarCommands.SeparateCommands | st_plugins/sidebar_context_commands.py:299-324 | otherwise each path has its own command, and exec_once adds the bare command with its arguments once at the end |
| CompareFiles.History.constructor | st_plugins/compare_open_files.py:42-45 | the history starts empty and not recording |
| CompareFiles.History.Record | st_plugins/compare_open_files.py:69-98 | while a recording is under way nothing changes; otherwise the history shifts by one with the new file first, or is emptied on reset |
| CompareFiles.History.OnActivated | st_plugins/compare_open_files.py:166-177 | a view with a path other than the last recorded one is recorded first, anything else changes nothing, and no file is ever recorded twice in a row |
| CompareFiles.History.RunComparison | st_plugins/compare_open_files.py:101-139 | without a diff tool the install message; with two (three) recorded files the tool is launched on them, most recent first, and the history emptied; otherwise the count message for TWO (THREE) and the history kept |
| CompareFiles.CompareTwoAfterActivating | st_plugins/compare_open_files.py:142-177 | two different files activated in turn are launched latest first, and a second comparison then finds too few files |
| CompareFiles.SameFileTwice | st_plugins/compare_open_files.py:152-177 | activating the same file twice records it once, so a three-way comparison after three activations of two files is refused |
| SearchWithZeal.WordLength | st_plugins/search_with_zeal.py:154-159 | the leading run of non-space characters, ended by a space or the end |
| SearchWithZeal.FirstWord | st_plugins/search_with_zeal.py:154-159 | split()[0] is None exactly for all-blank text (where the source raises IndexError), and otherwise a non-empty word without spaces |
| SearchWithZeal.LastOverrideMeaning | st_plugins/search_with_zeal.py:175-191 | no override exactly when no marker occurs in the scope; otherwise the language of the last marker in the list that occurs |
| SearchWithZeal.HtmlLanguage | st_plugins/search_with_zeal.py:164-170 | "html" becomes php, javascript or css when that component is present, tested in that order, and stays html otherwise |
| SearchWithZeal.Base | st_plugins/search_with_zeal.py:156-173 | no language exactly when the last component is empty or is "basic" with nothing before it, the two cases where the source raises |
| SearchWithZeal.OverridesChain | st_plugins/search_with_zeal.py:175-191 | the marker list unfolds into the source's six tests, the last one winning |
| SearchWithZeal.LanguageFromScope | st_plugins/search_with_zeal.py:141-195 | the chain of reassignments computes the language of the scope name |
| SearchWithZeal.MarkerWins | st_plugins/search_with_zeal.py:175-191 | the marker that occurs last in the list decides, whatever the components say |
| SearchWithZeal.LastComponent | st_plugins/search_with_zeal.py:156-157 | without markers an ordinary last component is the language |
| SearchWithZeal.BasicFallsBack | st_plugins/search_with_zeal.py:161-162 | "basic" names the component before it |
| SearchWithZeal.HtmlRefines | st_plugins/search_with_zeal.py:164-170 | an "html" scope is refined by its other components |
| SearchWithZeal.EmptyComponent | st_plugins/search_with_zeal.py:157-159 | a scope ending in "." has no language: the source raises IndexError there |
| SearchWithZeal.SkipDelims | st_plugins/search_with_zeal.py:237-294 | the first loop stops on a position that is not a delimiter, at or before the cursor |
| SearchWithZeal.Back | st_plugins/search_with_zeal.py:240-297 | the second loop stops at the scope's start or a delimiter, with no delimiter passed |
| SearchWithZeal.Forward | st_plugins/search_with_zeal.py:248-305 | the third loop stops at the scope's end or a delimiter, with no delimiter passed |
| SearchWithZeal.ScanWord | st_plugins/search_with_zeal.py:198-251 | the three loops return the text between the word start and end of the specification |
| SearchWithZeal.WordAroundCursor | st_plugins/search_with_zeal.py:198-251 | on a word character inside the scope the scan yields the whole run of non-delimiters around the cursor, cut at the scope's bounds |
| SearchWithZeal.GetWord | st_plugins/search_with_zeal.py:310-331 | the CSS scan for css, scss, sass and less, the Erlang scan for erlang, the host's selection word otherwise |
| SearchWithZeal.Query | st_plugins/search_with_zeal.py:354-359 | the text alone for the prompt or without a docset, otherwise "docset:text" |
| SearchWithZeal.QueryParts | st_plugins/search_with_zeal.py:359 | a docset without ":" and the text are recovered by splitting the query at its first ":" |
| SearchWithZeal.OpenZeal | st_plugins/search_with_zeal.py:334-366 | no executable gives the message; otherwise the command line is the executable and the query |
| SearchWithZeal.Matching | st_plugins/search_with_zeal.py:407-409 | the entries kept are exactly those whose "lang" is the detected language |
| SearchWithZeal.MatchingItems | st_plugins/search_with_zeal.py:404-409 | the loop collects the matching entries in order |
| SearchWithZeal.LexTotal | st_plugins/search_with_zeal.py:416 | Python's string order is total, so sorting by title is well defined |
| SearchWithZeal.Insert | st_plugins/search_with_zeal.py:416 | inserting into a list sorted by title keeps it sorted and adds exactly that entry |
| SearchWithZeal.SortByTitle | st_plugins/search_with_zeal.py:416 | sorted by title, a permutation of the entries |
| SearchWithZeal.Entries | st_plugins/search_with_zeal.py:420-421 | one row per entry: the title and "Language: " with its lang |
| SearchWithZeal.Popup | st_plugins/search_with_zeal.py:411-421 | with sort_mapping the rows of the entries sorted by title, in title order; otherwise the rows in the iteration order the mapping sequence stands for (see "Left out") |
| SearchWithZeal.PopupPermutes | st_plugins/search_with_zeal.py:404-421 | in either mode the popup rows are the matching entries' rows, each once, whatever order the dictionaries are iterated in |
| SearchWithZeal.Lookup | st_plugins/search_with_zeal.py:445-452 | the entry found has that title, and none exactly when no entry has it |
| SearchWithZeal.RegionEffects | st_plugins/search_with_zeal.py:398-452 | no word gives the "No word was selected." status alone |
| SearchWithZeal.SoleEntryOpens | st_plugins/search_with_zeal.py:422-449 | exactly one matching entry opens Zeal with its docset, followed by an empty quick panel |
| SearchWithZeal.SeveralEntriesPopup | st_plugins/search_with_zeal.py:411-449 | several matching entries only show the quick panel, sorted by title when asked |
| SearchWithZeal.NoEntry | st_plugins/search_with_zeal.py:424-449 | no matching entry gives the "No Zeal mapping" status and an empty quick panel |
| SearchWithZeal.Callback | st_plugins/search_with_zeal.py:428-445 | a dismissal (-1) opens nothing |
| SearchWithZeal.PickOpensEntry | st_plugins/search_with_zeal.py:411-445 | picking a row of the popup opens Zeal with the docset of that row's own entry |
| SearchWithZeal.RunEffects | st_plugins/search_with_zeal.py:392-452 | no selection does nothing |
| SearchWithZeal.SelectionCommand | st_plugins/search_with_zeal.py:378-452 | the loop over the selections produces the effects of the specification |
| SearchWithZeal.SelectionVisible | st_plugins/search_with_zeal.py:454-473 | a boolean setting decides; otherwise visible exactly when some entry's "lang" is the detected language in lower case |
| SearchWithZeal.StripEnds | st_plugins/search_with_zeal.py:538 | a stripped text has no whitespace at either end |
| SearchWithZeal.StripTwice | st_plugins/search_with_zeal.py:538 | stripping twice is stripping once |
| SearchWithZeal.SearchPrompt.constructor | st_plugins/search_with_zeal.py:486 | no text is remembered at first |
| SearchWithZeal.SearchPrompt.Run | st_plugins/search_with_zeal.py:488-499 | the prompt opens with the remembered text, already stripped |
| SearchWithZeal.SearchPrompt.OnChange | st_plugins/search_with_zeal.py:522-538 | a non-blank text is remembered stripped, a blank one leaves the memory, and the memory stays stripped |
| SearchWithZeal.SearchPrompt.AfterInput | st_plugins/search_with_zeal.py:501-520 | a blank submit forgets the text and opens nothing; any other searches Zeal with the text as typed |
| SnippetsToCompletions.GetField | st_scripts/snippets_to_completions.py:27-31 | a field is present exactly when the snippet has that element, and then it is that element's value |
| SnippetsToCompletions.Format | st_scripts/snippets_to_completions.py:29 | "%s" gives the text itself, "" for a missing field (the default) and "None" for an empty element |
| SnippetsToCompletions.FormatSnippet | st_scripts/snippets_to_completions.py:26-32 | the scope and contents as found; the trigger is the tab trigger, followed by a tab and the description exactly when the description is non-empty |
| SnippetsToCompletions.TriggerParts | st_scripts/snippets_to_completions.py:29-30 | splitting a described trigger at its tab gives back the tab trigger and the description |
| SnippetsToCompletions.SnippetFiles | st_scripts/snippets_to_completions.py:44-45 | the files kept are exactly the listing's names that end in ".sublime-snippet" |
| SnippetsToCompletions.AddCompletion | st_scripts/snippets_to_completions.py:52-56 | a completion without a scope, a trigger or contents leaves the groups alone; otherwise its scope becomes a key |
| SnippetsToCompletions.GroupedByScope | st_scripts/snippets_to_completions.py:49-56 | a scope is a key exactly when some snippet emits a completion in it, and its list is that scope's completions in file order |
| SnippetsToCompletions.Grouped | st_scripts/snippets_to_completions.py:49-56 | specification of the main loop's result: each snippet's completion appended to its scope's list; GroupedByScope states what it holds and Convert ties the loop to it |
| SnippetsToCompletions.InScopeEmitted | st_scripts/snippets_to_completions.py:49-56 | every completion listed under a scope comes from a snippet of that scope that passed the filter |
| SnippetsToCompletions.OutputEmitted | st_scripts/snippets_to_completions.py:49-56 | every completion in the output has a trigger and contents, and a snippet with that scope exists |
| SnippetsToCompletions.Convert | st_scripts/snippets_to_completions.py:40-56 | the main loop builds the grouping of the specification from the snippet files read in order |
| SnippetsToCompletions.Add | st_scripts/snippets_to_completions.py:52-56 | one pass of the loop body adds the completion to its scope's list, creating the list on first use |
| SnippetsToCompletions.ReadsSnoc | st_scripts/snippets_to_completions.py:49-50 | reading one more file appends that file's snippet |
| SnippetsToCompletions.Reads | st_scripts/snippets_to_completions.py:49-50 | the k-th snippet read is the k-th file's |

## Left out

- Subprocesses, threads, timers and debouncing (`cmd_utils.popen`, `multiprocessing.Process`, `ThreadCall.run`'s process handling, `sublime.set_timeout`, `queue.debounce`): these are I/O and concurrency. For the code formatter, only the partition over finished job states and the results of finished jobs are modelled. Liveness is not.
- External libraries are parameters or are not part of this model: `python_utils.case_conversion`, `merge_utils.merge_code`, `utils.substitute_variables`, `get_view_context`, `get_selections`, `has_right_syntax`, `has_right_extension`, `get_executable_from_settings`, `cmd_utils.can_exec` and `which`, the settings object and the logger.
- The host's regular-expression engine is out of scope. `view.find_all` with the user's trailing-space pattern, `find_by_selector`, `match_selector`, `scope_name` and `score_selector` are parameters. Only literal and whole-word search over escaped text is modelled, in `Search`.
- UI rendering is out of scope: popup and tooltip HTML (`_popup_html`, `prepare_urls`, `get_bits_positions`), quick, input and output panel widgets, viewport scrolling and `show`, folding, syntax assignment, icons. Status messages are modelled only as their text.
- Host.Adjust: a selection end strictly inside the replaced region keeps its offset. The host maps such an end to a place in the new text by its own rules, which the model does not follow; this matters only when several selection ends fall inside one replaced region, such as two carets inside one word that toggle_words replaces.
- Host.View.AddSel: the host merges overlapping selections, and the model does not. Host.View.Subtract removes only the regions it covers and does not cut partial overlaps.
- The filesystem and the clock are out of scope: `os.path.exists`, `isdir`, `expanduser`, `os.listdir`, file reading, the timestamps of the message panel, and the working-directory computation of the comparison command.
- display_numbers: the double-click listener, the clipboard commands, the swap-positions toggle and the popup's HTML are out of scope.
- text_debugging: the PHP route dispatches to a command that is not part of the repository, so it is modelled only as that dispatch.
- code_formatter: `is_visible` is out of scope. The merge of a whole view's old and new text (`merge_utils`) is taken to give the new text.
- better_find_results: folding (including in the fold-and-move command), the viewport, the popup help and the force-syntax listener are out of scope.
- message_panel: tooltip popups, `ensure_panel`'s window plumbing and the viewport are out of scope. The initial `_panel_id` of "" is modelled as the id 0, which the model treats as no panel.
- sidebar_context_commands: threads, processes, the working directory, the report output and `dry_run` are out of scope. Commands are modelled as the argument lists `run` builds.
- compare_open_files: the panel title is out of scope. The listener tests `get_file_path(view)` and records `view.file_name()`; the model takes these to be the same path.
- search_with_zeal: `popen` and its exception path, and messages to the message panel, are out of scope. The host's `scope_name`, `extract_scope`, `line` and `word`, `utils.get_selections` and the module's global `language` are parameters. The assignment of `view.word(region)` at st_plugins/search_with_zeal.py:394 is overwritten on the next line, so it is not modelled.
- SearchWithZeal.Popup: the mapping is a Python 3.3 dictionary, whose iteration order is not fixed. The mapping sequence stands for one iteration order of both the settings dictionary and the `items` dictionary rebuilt from it (st_plugins/search_with_zeal.py:404-409, 418), and without sort_mapping the rows follow that order. Only the sorted order, and the set of rows in either mode (SearchWithZeal.PopupPermutes), hold for every iteration order.
- SearchWithZeal.SortByTitle: Python's `sorted` is stable. The model does not state stability, because the titles are dictionary keys and so are distinct.
- snippets_to_completions: argparse, the folder check, `os.path.join`, a failing `read_xml`, XML elements that are not plain text, and the `json.dumps` output format are out of scope. `read` stands for reading and parsing a file.
- CaseConversion.Step, CaseConversion.RunStep, CaseConversion.RunOnSelections, CaseConversion.ToggleSnakeCamelPascal and CaseConversion.ConvertCase follow the corrected trailing part (NewText, Trailing). An all-whitespace selection is therefore kept, where st_plugins/case_conversion.py:199-201 as written doubles it. The as-written replacement is NewTextAsWritten, and WhitespaceDoubled shows the difference (see "Findings").
- CodeFormatter.UpdateStep, CodeFormatter.Updates and CodeFormatter.ReplaceSelections grow the offset by the character length of each selection (UpdateList), where st_plugins/code_formatter.py:392 as written subtracts its UTF-8 byte length (UpdateListAsWritten). They agree on ASCII text (AsWrittenAscii); on other text the source shifts later edits, as ExampleAsWritten and OffsetCountsBytes show (see "Findings").
- Strings.LowerChar, Strings.UpperChar, Strings.Lower, Strings.Upper and Strings.Capitalize map case for ASCII letters only, and Search.IsWordChar, TextDebugging.AllWord, FindResults.IsDigit and SidebarCommands.IsDigit take `\w` and `\d` (and the digits `int()` accepts) as ASCII. Python's `str` methods and `re` patterns are Unicode, so, for example, a toggle_words group ["sí", "no"] toggles a selected "SÍ" in the source and not in the model. The word boundaries of DisplayNumbers.RemoveSeparators are ASCII for the same reason.
- WordHighlight.ReEscape follows `re.escape` of Python 3.3, the interpreter of Sublime Text 3's plugin host: every character other than an ASCII letter, digit or "_" is backslashed, and NUL becomes "\000". From Python 3.7 on, `re.escape` escapes only the special characters, which the model does not cover.
- TrailingSpaces.Highlighter and WordHighlight.Storage hold the regions shown (`shown`) of one view. In the host these are kept per view by `add_regions`/`erase_regions`; only the remembered lists and the skip mark are global. Several views are not modelled.
- word_highlight: the live-highlight toggle command (st_plugins/word_highlight.py:255-262) only flips the `live_highlight` setting, which the model takes as the `live` parameter.
- st_plugins/password_generator.py, fix_python_imports.py, search_html_pages.py, run_command_in_all_views.py, st_scripts/html5_converter.py, the package `__init__` event plumbing and app.py are not part of this model. Their work is randomness, external libraries, network access or host command dispatch.

## Findings

| source | as written | input that shows it | evidently intended | confidence | as-written member | corrected member |
|---|---|---|---|---|---|---|
| st_plugins/case_conversion.py:199-201 | the trailing whitespace is `text[len(text.rstrip()):]`, and for an all-whitespace text it is the whole text, like the leading part | a selection of one space becomes two spaces | an all-whitespace selection is left as it is | not executed | CaseConversion.WhitespaceDoubled | CaseConversion.NewTextKeepsWhitespace |
| st_plugins/code_formatter.py:386-392 | the offset grows by the formatted length minus the length of `text_content`, which is the UTF-8 bytes of the selection | buffer "éxa" with selections "é" and "a", formatted to "e" and "b", becomes "eba" | the offset counts characters, and the buffer becomes "exb" | not executed | CodeFormatter.OffsetCountsBytes | CodeFormatter.FinishedSelectionsApplied |
| st_plugins/better_find_results/__init__.py:218-227 | get_end walks down with `view.line(line.end() + 1)` while the line is non-empty | buffer "a": the last line has no line break, and the next line is the same line | the walk stops at the end of the buffer and there is no end line | not executed; relies on view.line clamping to the buffer | FindResults.GetEndAsWrittenLoops | FindResults.GetEnd |
