# Pretty JSON, modelled in Dafny

This project models the text-processing core of the Sublime Text plugin *Pretty JSON*
(`PrettyJson.py`) and proves properties of it. The editor, the JSON library, and the
`jq` process are abstracted away. What remains is a set of pure functions on text and
trees:

- the re-layout that `json_dumps` applies to the serializer's output:
  - single-line array collapsing;
  - the bracket-newline rule and the brace-newline rule.
- the serializer arguments each command asks for;
- block re-indentation (`reindent`);
- the duplicate-key object hook and the default `OrderedDict` hook;
- the JSON-to-XML element tree (`traverse`);
- the selection choice (`get_selection_from_region`);
- the error-offset highlight (`highlight_error`);
- the goto-symbol list and occurrence rank (`generate_items`, `goto`);
- the live `jq` preview history (`send_query`, `done`).

Files, one module each:

| file | module | models |
|---|---|---|
| `wrappers.dfy` | `Wrappers` | `Option` and `Result` |
| `text.dfy` | `Text` | Python `str` operations: `isspace`, `strip`, `rstrip`, `split`, `join`, `ljust`, `replace(.., .., 1)` |
| `newline_rule.dfy` | `NewlineRule` | the two MULTILINE substitutions `re.sub(r'^((\s*)".*?":)\s*([{])', r'\1\n\2\3')` and the same with `([\[])`, as one explicit matcher parameterised by the opener |
| `newline_pattern.dfy` | `NewlinePattern` | the same pattern read declaratively, as a decomposition of the matched text, and its agreement with the matcher |
| `array_collapse.dfy` | `ArrayCollapse` | `re.findall(r'(\[[^\[\]]+?\])')`, the stable longest-first sort, and the collapsing loop |
| `layout.dfy` | `Layout` | settings, serializer arguments and the post-processing of `json_dumps` |
| `commands.dfy` | `Commands` | what the pretty and sort commands make of one selection |
| `reindent.dfy` | `Reindent` | `reindent` |
| `duplicate_keys.dfy` | `DuplicateKeys` | `duplicate_key_hook`, `OrderedDict(pairs)` |
| `json_value.dfy`, `xml_tree.dfy` | `JsonValue`, `XmlTree` | decoded JSON values; `traverse` |
| `selection.dfy` | `Selection` | `get_selection_from_region`, the `char (\d+)` offset, `highlight_error` |
| `goto_symbol.dfy` | `GotoSymbol` | `generate_items`, `goto` |
| `jq_history.dfy` | `JqHistory` | `send_query`, `done` |

Whitespace means Python's `str.isspace`, which is also what `\s` matches in a `str`
pattern. It is defined once, as `Text.IsSpace`.

The newline rules work as follows:

- The regular expression is run as a four-phase automaton at every line start.
- The lazy `.*?` backtracks past a `":` whose following whitespace does not end in the
  opener. The automaton captures this by falling back to key scanning.
- That backtracking is impossible once the whitespace has crossed a line break, because
  `.` does not match `\n`.
- `NewlinePattern` states the pattern without the automaton. A match is whitespace, `"`,
  a key without line breaks, `":`, whitespace and the opener. The automaton stops
  exactly at the end of the shortest such match, which is the one the lazy `.*?` makes
  the regular expression engine report.

Two points where the code and its documentation differ. The model follows the code in
both:

- The setting read by `get_selection_from_region` is `use_entire_file_if_no_selection`.
- The sort command does not force sorting (see Findings).

## Model

| member | source | states |
|---|---|---|
| Text.Strip | PrettyJson.py:67-68 | `str.strip()`: the result is the infix between the leading and the trailing whitespace, and is itself free of whitespace at both ends |
| Text.Split | PrettyJson.py:87 | `str.split(sep)` for a non-empty separator: at least one piece, no piece contains the separator, joining the pieces with it gives the input back, the first cut is at the separator's leftmost occurrence, and there is a single piece exactly when the separator does not occur |
| Text.SplitCutsLeftmost | PrettyJson.py:87 | every piece but the last ends at the leftmost occurrence of the separator in the text that remains |
| Text.SplitJoinChar | PrettyJson.py:124-131 | splitting on a one-character separator undoes a join of pieces free of it |
| Text.LJust | PrettyJson.py:84 | `ljust(width)`: the string padded on the right with spaces to at least `width` |
| Text.ReplaceFirst | PrettyJson.py:91 | `replace(target, repl, 1)`: the first occurrence is replaced, and the text is unchanged when there is none |
| Text.ReplaceFirstKeepsNonSpace | PrettyJson.py:91 | replacing by text with the same non-whitespace characters keeps the non-whitespace characters of the whole text |
| Text.LeadingSpace | PrettyJson.py:120 | `^\s*`: the longest all-whitespace prefix |
| NewlineRule.Find | PrettyJson.py:49-50 | where a match of the key-then-opener pattern at a line start ends: always at an opener character |
| NewlineRule.MatchParts | PrettyJson.py:49-50 | a match consists of group 2 (the leading whitespace), the key's opening quote, and a group 1 that ends in `":`; only whitespace lies between group 1 and the opener |
| NewlinePattern.FindIsShortestMatch | PrettyJson.py:49-50 | the matcher stops at index `w` exactly when the text up to `w` is whitespace, `"`, a key without line breaks, `":`, whitespace and the opener, and no shorter prefix has that form |
| NewlinePattern.FindNoneIsNoMatch | PrettyJson.py:49-50 | the matcher finds nothing exactly when no prefix of the text has the form of a match |
| NewlinePattern.FindSound | PrettyJson.py:49-50 | what the matcher reads from a phase up to where it stops has the form that phase still expects |
| NewlinePattern.FindComplete | PrettyJson.py:49-50 | a prefix in the form a phase expects makes the matcher stop no later than its end |
| NewlinePattern.LeadShapeIsMatch | PrettyJson.py:49 | the phase-by-phase form of a match and the flat decomposition into the pattern's parts describe the same texts |
| NewlineRule.KeyLine | PrettyJson.py:49-50 | a key line `<ind>"k":<ws>{` becomes `<ind>"k":`, a line break and `<ind>{`, and the text after the opener is processed further |
| NewlineRule.PlainLineKept | PrettyJson.py:49-50 | a line whose first non-blank character is not `"` is kept unchanged with its line break |
| NewlineRule.RewriteIdempotent | PrettyJson.py:93 | substituting again on the rule's own output, from any line-start state, changes nothing |
| NewlineRule.ApplyIdempotent | PrettyJson.py:96 | applying a newline rule twice is the same as applying it once |
| NewlineRule.RewriteKeepsNonSpace | PrettyJson.py:93 | the substitution keeps the non-whitespace characters, in order |
| NewlineRule.ApplyKeepsNonSpace | PrettyJson.py:96 | removing all whitespace from the input and from the output of a rule gives the same string |
| ArrayCollapse.SpanAt | PrettyJson.py:82 | the match of `\[[^\[\]]+?\]` at a position, or a proof that no prefix there is such a span |
| ArrayCollapse.FindSpans | PrettyJson.py:82 | `findall`: every result is an innermost array span |
| ArrayCollapse.FindSpansFindsEverySpan | PrettyJson.py:82 | the scanner returns exactly the span at every `[` that opens one, in text order (no span lost or invented) |
| ArrayCollapse.InsertByLength | PrettyJson.py:83 | one insertion step of the sort keeps the list longest-first |
| ArrayCollapse.InsertByLengthPermutes | PrettyJson.py:83 | one insertion step adds exactly the inserted match and loses nothing |
| ArrayCollapse.SortLongestFirst | PrettyJson.py:83 | `sort(key=len, reverse=True)`: the result is longest-first and a permutation of the matches |
| ArrayCollapse.SortLongestFirstStable | PrettyJson.py:83 | the sort is stable: the matches of each length keep their found order |
| ArrayCollapse.CollapsedItems | PrettyJson.py:84-89 | every item between the padded separators of a collapsed array is free of surrounding whitespace and of the stripped separator, and the items joined by that separator hold exactly the content's non-whitespace characters |
| ArrayCollapse.CollapsedKeepsNonSpace | PrettyJson.py:86-89 | collapsing an array changes only whitespace |
| ArrayCollapse.CollapsedIdempotent | PrettyJson.py:84-89 | for a one-character separator, collapsing an already collapsed array gives it back |
| ArrayCollapse.CollapseArrays | PrettyJson.py:81-91 | the collapsing pass fails (ValueError of `split`) exactly when a span exists and the separator is all whitespace; with no span the text is returned as it was |
| ArrayCollapse.ReplaceSpansKeepsNonSpace | PrettyJson.py:85-91 | the replacement loop changes only whitespace |
| ArrayCollapse.CollapseArraysKeepsNonSpace | PrettyJson.py:81-91 | the collapsing pass changes only whitespace |
| ArrayCollapse.SpansOverLimitKept | PrettyJson.py:90-91 | spans whose replacement exceeds `max_arrays_line_length` leave the text unchanged |
| ArrayCollapse.NothingFits | PrettyJson.py:90 | with a limit under two characters nothing is collapsed |
| ArrayCollapse.SingleSpan | PrettyJson.py:85-91 | a lone span is replaced at its first occurrence when it fits, and kept otherwise |
| Layout.ArgsIgnoreLayout | PrettyJson.py:59-77 | the layout options (`keep_arrays_single_line`, `max_arrays_line_length`, `bracket_newline`, `brace_newline`) never reach the serializer: settings differing only in them give the same arguments |
| Layout.PostProcess | PrettyJson.py:80-98 | the re-layout fails exactly when collapsing is on, a span exists and the item separator is all whitespace |
| Layout.MinifiedIgnoresLayout | PrettyJson.py:66-79 | minified output never fails and does not depend on `indent`, on any layout option or on the whitespace around the separators |
| Layout.PostProcessKeepsNonSpace | PrettyJson.py:81-96 | the whole re-layout changes only whitespace |
| Layout.BracketIgnoredWhenCollapsing | PrettyJson.py:81-93 | with `keep_arrays_single_line` on, `bracket_newline` has no effect on the output |
| Layout.BraceRuleRunsLast | PrettyJson.py:81-96 | turning `brace_newline` on applies the brace rule to what the other options produced, and passes a failure on |
| Layout.NoOptionNoChange | PrettyJson.py:81-98 | with all three layout options off, the serialized text is returned unchanged |
| Layout.BraceOnlyIdempotent | PrettyJson.py:95-96 | with only the brace rule on, re-laying out the output changes nothing |
| Layout.BracketOnlyIdempotent | PrettyJson.py:92-93 | with only the bracket rule on, re-laying out the output changes nothing |
| Commands.PrettyArgs | PrettyJson.py:59-62 | the pretty command sorts exactly when `sort_keys` is set, with the configured indent |
| Commands.SortArgsAsWritten | PrettyJson.py:288-291 | as written, the sort command asks for the same arguments as the plain pretty command |
| Commands.SortArgs | PrettyJson.py:288-291 | the sort command with its flag read: always sorts, and differs from the pretty command in nothing else |
| Commands.SortCommandDoesNotSort | PrettyJson.py:61 | with default settings the sort command as written does not sort; the corrected one does |
| Commands.PrettyReplacement | PrettyJson.py:240-248 | the text replacing a selection: a layout failure is reported as such; re-indentation fails exactly for an unrecognised truthy `reindent_block` on multi-line output; whole-file and non-reindenting runs return the layout output |
| Commands.PrettyReplacementKeepsNonSpace | PrettyJson.py:240-248 | the replacement text differs from the serializer output only in whitespace |
| Reindent.IndentFor | PrettyJson.py:117-122 | `start` indents by as many spaces as the prefix has characters, `minimal` by the longest all-whitespace start of the prefix (a prefix of it that is followed by a non-space character or by its end); other modes assign nothing |
| Reindent.ReindentText | PrettyJson.py:113-131 | fails (UnboundLocalError) exactly for an unrecognised mode on text with a line break; single-line text comes back unchanged |
| Reindent.SplitSingleLine | PrettyJson.py:124 | splitting at `\n` gives one line exactly when there is no `\n` |
| Reindent.ReindentLines | PrettyJson.py:124-131 | the output has the same number of lines; the first is unchanged, every later one is the input line with the indent in front |
| Reindent.UnindentReindent | PrettyJson.py:124-131 | cutting the indent off every later line gives the input back |
| Reindent.ReindentKeepsNonSpace | PrettyJson.py:118-131 | re-indentation adds whitespace only |
| DuplicateKeys.AppendNoDuplicate | PrettyJson.py:219-222 | one more pair keeps the keys distinct exactly when its key is new |
| DuplicateKeys.DuplicateKeyHook | PrettyJson.py:217-223 | raises exactly when a key repeats, naming the key of the first repeating pair; otherwise the map has exactly the pairs' keys, each with its value |
| DuplicateKeys.OrderedDict | PrettyJson.py:53-56 | the default hook yields distinct keys, the same key set as the pairs |
| DuplicateKeys.Store | PrettyJson.py:53-56 | assignment into an ordered mapping overwrites in place or appends, and keeps keys distinct |
| DuplicateKeys.OrderedDictLastWins | PrettyJson.py:53-56 | each key carries the value of its last occurrence |
| DuplicateKeys.OrderedDictWithoutDuplicates | PrettyJson.py:53-56 | without repeated keys the decoded object is the pairs as written, agreeing with the duplicate-key hook |
| JsonValue.PyStr | PrettyJson.py:496 | `str()` of a non-container value: a string is itself, an empty object is `{}` |
| XmlTree.Traverse | PrettyJson.py:484-498 | a non-empty object gets one child per key, in key order; a list gets one `items` child with one `item` per element; everything else only gets `value` set |
| XmlTree.FieldElements | PrettyJson.py:486-489 | one child per object entry, tagged with its key |
| XmlTree.ItemElements | PrettyJson.py:490-494 | one `item` child per list element |
| XmlTree.TraverseKeepsScalars | PrettyJson.py:484-498 | the tree's `value` attributes in document order are the `str()` of the JSON's scalars in document order, and nothing else |
| Selection.FromRegion | PrettyJson.py:101-111 | an empty region is skipped exactly when there are several regions; otherwise it stands for the whole buffer when the setting is on; a non-empty region is taken as it is |
| Selection.FromRegionAsCalled | PrettyJson.py:234-237 | as called with `len(region)`, no region is ever skipped |
| Selection.FromSelections | PrettyJson.py:388-392 | called with the number of selections, an empty caret among several is skipped |
| Selection.TwoCaretsCounterexample | PrettyJson.py:105-109 | two empty carets: as called each takes the whole buffer; counted correctly both are skipped |
| Selection.DigitRun | PrettyJson.py:48 | `\d+` extent: the longest run of digits |
| Selection.OffsetFrom | PrettyJson.py:143 | `search`: no offset exactly when no `char ` followed by a digit occurs |
| Selection.ParseDecimalRoundTrip | PrettyJson.py:146 | `int()` of the decimal rendering of `n` is `n` |
| Selection.CharOffsetOfMessage | PrettyJson.py:143-146 | the offset read from a message `... char <n>...` is `n` |
| Selection.HighlightRegion | PrettyJson.py:143-150 | with an offset `n` the region becomes one character wide at begin + `n`, keeping its direction; without one it is unchanged |
| GotoSymbol.GenerateItems | PrettyJson.py:517-528 | the displayed list and the search list have equal length, and each search text is a quoted name that ends the displayed path; a scalar yields nothing, and a list yields exactly one `root.s` / `"s"` pair per string directly in it |
| GotoSymbol.FieldSymbols | PrettyJson.py:519-523 | the entries of the keys from the `k`-th on are paired; past the last key there are none, and otherwise the first pair is `"root.key"` / `"key"` for the `k`-th key |
| GotoSymbol.FieldSymbolsOrder | PrettyJson.py:519-523 | after a key's own pair come all entries of its value (with `root.key` as the new root), then those of the later keys |
| GotoSymbol.ListSymbols | PrettyJson.py:524-528 | the entries of a list from element `k` on are exactly one `root.s` / `"s"` pair for each string `s` directly among those elements, in order; nested lists and objects, and other scalars, add nothing |
| GotoSymbol.PyIndex | PrettyJson.py:531 | Python indexing: negative positions count from the end; outside the range is an IndexError |
| GotoSymbol.GotoTarget | PrettyJson.py:530-538 | the search text is `goto_items[pos]`, and `found` is the number of equal entries before `pos` (zero for a negative `pos`) |
| GotoSymbol.NthOccurrence | PrettyJson.py:549 | among the goto entries, which stand in for the buffer's `regions`, the `k`-th occurrence of the text exists exactly when it occurs more than `k` times; its index holds the text and has exactly `k` equal entries before it |
| GotoSymbol.RankFindsPosition | PrettyJson.py:533-549 | among the goto entries, the `found`-th occurrence of the chosen entry is the chosen position itself |
| GotoSymbol.RankBelowCount | PrettyJson.py:533-549 | `found` is less than the number of occurrences, so `regions[found]` exists when every occurrence is found |
| GotoSymbol.CancelJumpsCounterexample | PrettyJson.py:531-538 | a cancelled panel (`pos = -1`) searches for the last entry with `found` 0, so the jump goes to its first occurrence among the entries |
| GotoSymbol.GotoChosen | PrettyJson.py:530-538 | with cancel ignored, a position is served exactly when it is in range, and its search text and rank pick out that same position among the goto entries |
| JqHistory.SendQuery | PrettyJson.py:397-435 | empty entries are first filled with the selected text; a result is shown, records the query length, and rotates the entries forward on a longer query (old forward to back, result to forward), back on a shorter one (result to back, old back to forward), and keeps them on one of equal length; without a result the entries and the length are kept, jq's errors are shown when `jq_errors` is on and there are any, and otherwise the forward entry (query not shorter) or the back entry (shorter); once a non-empty text has been selected, neither entry is ever empty again |
| JqHistory.OnDone | PrettyJson.py:437-439 | `done(self)`, installed as `on_done` at line 376 and called as `on_done(text)`, raises TypeError before its body runs, and the history is left as it was |
| JqHistory.StaleEntriesAfterDone | PrettyJson.py:406-431 | after Enter, a new panel's first filter without a result shows an entry kept from the previous panel, not the newly selected text |
| JqHistory.StalePreviewCounterexample | PrettyJson.py:406-431 | a concrete two-panel run in which the second panel previews the first panel's text, and the reset version previews its own |
| JqHistory.DoneReset | PrettyJson.py:437-439 | the corrected `done(self, text)` empties the two entries and keeps the query length |
| JqHistory.DoneResetStartsAfresh | PrettyJson.py:406-411 | after the corrected `done`, the next query fills both entries with the selected text as on the first run |
| JqHistory.ShorterFailingQueryShowsPrevious | PrettyJson.py:417-431 | after a longer filter produced a result, a shorter filter without one shows the previous result again |
| JqHistory.SameLengthKeepsEntries | PrettyJson.py:417-424 | a result for a filter of unchanged length leaves both entries alone |

## Left out

- Everything that touches the editor: views, selections as objects, `replace`, syntax switching, phantoms and their HTML, status messages, dialogs. The commands' loops over selections are left out; each model works on one selection.
- Settings loading. Settings are one immutable `Layout.Settings` value, with the same defaults as the code. `indent` is a `nat`. The code passes `s.get('indent', 2)` to the serializer unchanged (PrettyJson.py:72), and the serializer also accepts a string such as `"\t"` or `None` there. Since the serializer is a parameter, no proved property depends on the indent's type.
- The JSON library (`simplejson` `loads`/`dumps`, `Decimal` parsing). The serializer is a function parameter and decoded values are a datatype. `JsonValue.Json.Number` carries Python's `str()` of the number rather than computing it.
- `ElementTree.tostring` and the XML header. Only the element tree is modelled.
- The single-quote retry in `PrettyJsonCommand.run` (PrettyJson.py:257-278). It is a heuristic around parse errors of the external parser.
- `check_jq`, `shutil.which` and the `jq` subprocess. Its standard output and standard error are parameters of `JqHistory.SendQuery`. The `os.linesep` replacement is taken as the identity, which holds on POSIX systems.
- The `find_all`/`full_line` filtering of regions in `goto` (PrettyJson.py:540-547). It depends on the buffer contents.
- GotoSymbol.NthOccurrence: the buffer's `regions` (`find_all` of the search text, filtered at PrettyJson.py:540-547) are replaced by the occurrences of the search text among the goto entries. The two agree only when each entry's text occurs literally in the buffer exactly where the symbol is, and the filter deletes nothing. An escaped key such as `{"\u0061": 1}` has no literal occurrence, so `regions[found]` raises IndexError where the model finds one. In the one-line buffer `{"a": "a"}` the filter deletes the key's region, so the caret lands on the value. GotoSymbol.GotoChosen, GotoSymbol.RankFindsPosition and GotoSymbol.CancelJumpsCounterexample speak of positions among the entries for the same reason.
- `PrettyJsonListeners.py`. It only calls the commands.
- The body of `done` (PrettyJson.py:439, `PREVIOUS_CONTENT = list()`). The callback raises before reaching it (see Findings), so the history is always a two-entry list and the `IndexError` an emptied list would cause in `send_query` cannot arise.
- Selection.CharOffset: only ASCII digits are recognised. Python's `\d` also matches other Unicode decimal digits.
- Layout.PostProcess: idempotence is proved for each newline rule alone and for the one-rule settings. It is not proved for the bracket rule followed by the brace rule, nor for the whole array-collapsing pass (only for one collapsed array).
- Layout.PostProcessKeepsNonSpace: this is the model's form of value preservation, and it is weaker. Collapsing splits on the separator even inside string literals. For example `["x,  y"]` becomes `["x, y"]`, which changes a string value. Only the non-whitespace characters are proved to be preserved.
- NewlineRule.KeyLine: stated for keys without `"` or line breaks. Keys with quotes are covered by NewlinePattern.FindIsShortestMatch, which characterises where the match ends for every text.

## Findings

| source | as written | input that shows it | evidently intended | confidence | as-written member | corrected member |
|---|---|---|---|---|---|---|
| PrettyJson.py:61 | `json_dumps` reads the class attribute `PrettyJsonBaseCommand.force_sorting`, while `PrettyJsonAndSortCommand.run` (line 289) sets an instance attribute | "Pretty JSON and Sort" with `sort_keys` false: keys come out unsorted | the sort command sorts keys | high; not executed | Commands.SortArgsAsWritten | Commands.SortArgs |
| PrettyJson.py:237 | every command passes `regions_length=len(region)` (also lines 204, 305, 453), the region's size, so the skip branch at line 105 never runs | two empty carets with `use_entire_file_if_no_selection` on: the whole buffer is processed once per caret | pass the number of selections, as `get_content` does (line 389) | medium; not executed | Selection.FromRegionAsCalled | Selection.FromSelections |
| PrettyJson.py:437 | `done` is declared `def done(self)` but is installed as the input panel's `on_done` callback (line 376), which is called with the entered text; the call raises TypeError, so `PREVIOUS_CONTENT` is never reset | confirm a filter with Enter, select other text, open the panel again and type a filter without a result: the preview shows the previous panel's text | `def done(self, text)` resetting `PREVIOUS_CONTENT` to `[str(), str()]` | medium; not executed | JqHistory.OnDone | JqHistory.DoneReset |
| PrettyJson.py:531 | `goto` indexes `goto_items[pos]` without checking for the quick panel's cancel value `-1` | open the goto panel and press Escape: the caret jumps to the first occurrence of the last symbol | a cancelled panel does nothing | medium; not executed | GotoSymbol.GotoTarget | GotoSymbol.GotoChosen |
