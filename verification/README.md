# simple_grep in Dafny

A model of the search-and-format core of `simple_grep`, a small grep
written in Python, with proofs about it. There are five modules:

- `PyStr` (PyStr.dfy) holds the Python `str` operations the program relies
  on, written out exactly: `find`/`rfind`/`in`, `split(sep)`,
  `rsplit(sep, n)`, `join`, `replace`, `strip()`, whitespace `split()`, the
  slice `s[:k]` with a negative `k`, and `str(n)`.
- `Grep` (Grep.dfy) is the match engine, the `Searcher` class of
  `grep/grep.py`, which has four search strategies:

  | mode | strategy | result |
  |---|---|---|
  | whole file, literal | `match_f_for_str` | token-index dictionary |
  | whole file, regex | `match_f_for_pattern` | token-index dictionary |
  | line by line, literal | `search_line_by_line_for_term` | line-number dictionary |
  | line by line, regex | `search_line_by_line_for_regex` | line-number dictionary |

  It also models the dispatch in `search_f`, the error wrapping in `search_wrapper`, and `run`.
  - The class keeps the configuration fields of `Searcher`.
  - Each search method has the loop of the source, proved equal to a specification function.
  - Python dictionaries are ordered association lists. Iteration follows insertion order, and `d[k] = v` replaces a value in place or appends a new key.
- `GrepProperties` (GrepProperties.dfy) proves what the strategies record:
  - which tokens or lines, under which keys, and in what order;
  - the two sentinels: `{'file': content}` for the empty term and `{'file_matched': ''}` for a binary file;
  - the negative-slice truncation of matching lines;
  - the error cases;
  - which paths `run` collects.
- `PrintHelper` (PrintHelper.dfy) is the formatter of `grep/print_helper.py`:
  - the ANSI colour wrappers;
  - the per-file lines: the binary-file notice, the bare standard-input values, and the path, separator and line-number prefixes;
  - the removal of the last newline;
  - the decorator that highlights the last occurrence of the term.

  The test vectors of `tests/test_print_helper.py` are proved byte for byte.
- `RedonePrintHelper` (RedonePrintHelper.dfy) is the older formatter of `grep_redone/grep/print_helper.py`:
  - `rreplace`;
  - the two print functions. They reassign `output` for every file, so only the last file's lines survive.

The file system, `file_helper.is_binary_file`, Python's regex engine,
`os.path.normpath`/`os.path.relpath` and clint's `colored` are inputs:

- a file is a value: `Unopenable`, `Undecodable` or its lines, each keeping its `'\n'`;
- binary-ness is a predicate on paths;
- `re.compile(term)` is either a compile error or a `findall` function;
- the path and colour functions are arbitrary string functions.

### Behaviour of the code that the model keeps

- **Swallowed decoding errors.** `match_f_for_str` and `match_f_for_pattern` `return` from inside their `finally` block (grep/grep.py:135-165, 180-209). That discards a `UnicodeDecodeError` raised while reading. The search then runs on `entire_file == ''`. So an undecodable file in whole-file mode yields `{'file': ''}` for the empty term and no match otherwise. The line-by-line strategies do let the error escape, and `search_wrapper` turns it into no match (`DecodeErrorSwallowed`).
- **Truncation keeps more than the term.** In line-by-line mode the recorded text is `(split_str[0] + term + split_str[1][:-len(split_str[1]) + len(split_str[0] + term)]).strip()`. For the line `'aware werwer\n'` and the term `'aware'` this is `'aware werw'`. One might expect `'aware'`, the line up to the term, but the code keeps `'aware werw'`, and so does the model (`TruncationExample`).
- **Whole-file regex takes the last hit.** It records the tokens of `entire_file.split()` that contain the last `findall` hit as a literal substring. When that hit is empty, nothing is recorded.
- **Empty first hit in line-by-line regex.** When the first hit on a line is `''`, `line.split('')` raises `ValueError`, and the line is recorded as `line.strip()`.
- **Highlighting an empty list.** `color_term_in_string` raises `IndexError` on an empty list with a non-empty term, because it reads `list_to_edit[0]`. The model returns `IndexError` for that case.

## Model

| member | source | states |
|---|---|---|
| PyStr.Find | grep/grep.py:224 | `s.find(t)`: -1 or an index where `t` occurs, with no occurrence before it |
| PyStr.RFind | grep/print_helper.py:164 | `s.rfind(t)`: -1 or an index where `t` occurs, with no occurrence after it |
| PyStr.ContainsIff | grep/grep.py:161 | `t in s` holds exactly when `t` occurs at some index, and exactly when `rfind` succeeds |
| PyStr.Split | grep/grep.py:229 | `s.split(sep)` has at least one piece, and has two or more exactly when `sep` occurs |
| PyStr.SplitPieces | grep/grep.py:229 | no piece of `s.split(sep)` contains `sep` |
| PyStr.SplitHead | grep/grep.py:229-231 | `split_str[0]` is the text before the first occurrence; `split_str[1]` is the text after it, up to the second occurrence or the end |
| PyStr.Join | grep_redone/grep/print_helper.py:47-48 | `sep.join(parts)`; characterised by `SplitJoin`, `ReplaceAllIsSplitJoin` and `ReplaceLastSpec` |
| PyStr.SplitJoin | grep_redone/grep/print_helper.py:19 | joining the pieces of `split(sep)` with `sep` gives the string back |
| PyStr.ReplaceAll | grep_redone/grep/print_helper.py:19 | `s.replace(pat, repl)`, left to right without overlaps; characterised by `ReplaceAllIsSplitJoin` |
| PyStr.ReplaceAllIsSplitJoin | grep_redone/grep/print_helper.py:19 | `s.replace(pat, repl)` is `repl.join(s.split(pat))`: every occurrence is replaced |
| PyStr.RSplit | grep_redone/grep/print_helper.py:47 | `s.rsplit(sep, n)` has at least one piece; `ReplaceLastSpec` gives its pieces for `n == 1` |
| PyStr.ReplaceLastSpec | grep/print_helper.py:164 | `repl.join(s.rsplit(pat, 1))` is `s` when `pat` is absent, and otherwise `s` with exactly its last occurrence replaced |
| PyStr.Strip | grep/grep.py:222 | `strip()` removes only whitespace, from both ends, and leaves a result that neither starts nor ends with whitespace |
| PyStr.Words | grep/grep.py:159 | every token of `split()` is non-empty and free of whitespace |
| PyStr.WordsOfSpaces | grep/grep.py:159 | whitespace alone has no tokens |
| PyStr.WordsOfWord | grep/grep.py:159 | a non-empty text without whitespace is exactly one token, itself |
| PyStr.WordsAtSpace | grep/grep.py:159 | a whitespace character separates tokens: the tokens of `a + c + b` are those of `a` followed by those of `b`; with the two rows above, the tokens are exactly the maximal non-whitespace runs, in order |
| PyStr.NoSpacedTermInWord | grep/grep.py:159-161 | a token of `split()` never contains a term with whitespace in it |
| PyStr.SliceTo | grep/grep.py:230-231 | `s[:k]` is a prefix of `s` whose length follows Python's rules for negative and out-of-range `k` |
| PyStr.OccurrenceInWord | grep/grep.py:159-161 | an occurrence of a whitespace-free term in the text lies inside one token of `split()`, so that token contains the term |
| PyStr.NatToString | grep/print_helper.py:70 | `str(n)` is a non-empty string of decimal digits that denotes `n`, with no leading zero when `n > 0`, and `str(0)` is exactly `'0'` |
| Grep.Put | grep/grep.py:222 | `d[k] = v`: afterwards `k` maps to `v`, every other key keeps its value, and the dictionary grows by one entry exactly when `k` was absent |
| Grep.PutNewKey | grep/grep.py:163 | `d[k] = v` with a key larger than every key present appends `(k, v)` |
| Grep.PutLastKey | grep/grep.py:222 | assigning again to the last key replaces its value in place |
| Grep.LookupAppend | grep/grep.py:163 | looking a key up in a concatenated dictionary finds it in the first part before the second |
| Grep.CollectSpec | grep/grep.py:219-231 | the dictionary built in increasing key order has increasing keys in range, and holds `base + n` exactly when value `n` is present |
| Grep.CollectLookup | grep/grep.py:219-231 | the dictionary maps key `base + n` to value `n` when it is present, and lacks that key otherwise |
| Grep.CollectOrdered | grep/grep.py:219-231 | the keys of the dictionary increase strictly, as line numbers are assigned in order |
| Grep.CollectAllPresent | grep/grep.py:221-222 | when every line gives a value, there is one entry per line, in order |
| Grep.CollectNonePresent | grep/grep.py:159-165 | when no value is present, the dictionary is `{}` |
| Grep.CollectPut | grep/grep.py:230 | one more present value is one more `d[k] = v` |
| Grep.CollectSkip | grep/grep.py:224 | a line that gives no value leaves the dictionary as it was |
| Grep.AnyTermFiresPrefix | grep/grep.py:224-227 | a matching line within a prefix of the file is a matching line of the file |
| Grep.TermLineStep | grep/grep.py:219-231 | one iteration of the literal line loop: the dictionary and the "some line matched" flag after line `n + 1` |
| Grep.AnyHitsPrefix | grep/grep.py:253-257 | a line with hits within a prefix of the file is a line with hits of the file |
| Grep.RegexLineStep | grep/grep.py:248-270 | one iteration of the regex line loop: the dictionary and the "some line had hits" flag after line `n + 1` |
| Grep.WholeFileLiteral | grep/grep.py:123-165 | `match_f_for_str` as a value; characterised by `GrepProperties.WholeFileLiteralSpec` and `DecodeErrorSwallowed` |
| Grep.WholeFilePattern | grep/grep.py:167-209 | `match_f_for_pattern` as a value; characterised by `GrepProperties.WholeFilePatternSpec` |
| Grep.LineByLineForTerm | grep/grep.py:211-236 | `search_line_by_line_for_term` as a value; characterised by `GrepProperties.LinesForTermSpec` and `TermDictionary` |
| Grep.LineByLineForRegex | grep/grep.py:238-275 | `search_line_by_line_for_regex` as a value; characterised by `GrepProperties.LinesForRegexSpec` and `RegexDictionaryAt` |
| Grep.Strategy | grep/grep.py:95-113 | the strategy the two flags select; `UnopenableNeverMatches` and `CompileErrorNoMatch` state its error cases |
| Grep.Searched | grep/grep.py:72-85 | what `search_wrapper` gives `run`; `MatchedPathsSpec` states which paths it keeps |
| Grep.Searcher.constructor | grep/grep.py:15-40 | the eight configuration fields take the given values |
| Grep.Searcher.Run | grep/grep.py:42-61 | `run` returns the matching paths in order: the specific file alone when one is given, otherwise the enumerated paths |
| Grep.Searcher.SearchWrapper | grep/grep.py:72-85 | `search_wrapper` gives `{path: dict}` for a non-empty result, and nothing for an empty result, a regex error or a read error |
| Grep.Searcher.SearchF | grep/grep.py:90-121 | read errors escape; a regex error and an empty dictionary both give `None`; a non-empty dictionary `d` gives `{file_path: d}`; the strategy is the one the two flags select |
| Grep.Searcher.ReadEntireFile | grep/grep.py:128-133 | `entire_file` is the concatenation of the lines |
| Grep.Searcher.ScanWholeFile | grep/grep.py:141-165 | the part shared by both whole-file searches equals the whole-file result (its meaning is in `GrepProperties.ScanRecordsTokens`) |
| Grep.Searcher.MatchFForStr | grep/grep.py:123-165 | `match_f_for_str` equals `WholeFileLiteral` (characterised by `GrepProperties.WholeFileLiteralSpec`) |
| Grep.Searcher.MatchFForPattern | grep/grep.py:167-209 | `match_f_for_pattern` equals `WholeFilePattern` (characterised by `GrepProperties.WholeFilePatternSpec`) |
| Grep.Searcher.SearchLineByLineForTerm | grep/grep.py:211-236 | `search_line_by_line_for_term` equals `LineByLineForTerm` (characterised by `GrepProperties.LinesForTermSpec` and `TermDictionary`) |
| Grep.Searcher.SearchLineByLineForRegex | grep/grep.py:238-275 | `search_line_by_line_for_regex` equals `LineByLineForRegex` (characterised by `GrepProperties.LinesForRegexSpec`, `RegexDictionaryAt` and `RegexDictionaryOrdered`) |
| GrepProperties.ScanRecordsTokens | grep/grep.py:159-165 | past the gates, key `i` maps to token `i` of `split()`; every recorded token contains the hit; every token containing it is recorded; keys increase |
| GrepProperties.WholeFileLiteralSpec | grep/grep.py:139-165 | empty term: `{'file': entire_file}` unchanged; term absent: `{}`; binary: `{'file_matched': ''}`; otherwise the tokens containing the term |
| GrepProperties.WholeFilePatternSpec | grep/grep.py:183-209 | as the literal search, with the last `findall` hit in place of the term, tested by literal containment; an empty last hit gives `{}` |
| GrepProperties.SpacedTermNeverMatches | grep/grep.py:159-165 | a term containing whitespace never matches in the whole-file literal search of a non-binary file |
| GrepProperties.PresentTermMatches | grep/grep.py:139-165 | the converse: a whitespace-free term that occurs in a text file's content is found, the result holds at least one token; with the row above, the search finds something exactly when the term occurs and has no whitespace |
| GrepProperties.DecodeErrorSwallowed | grep/grep.py:130-152 | an undecodable file in whole-file mode gives `{'file': ''}` for the empty term and no match otherwise; in line mode it gives no match |
| GrepProperties.UnopenableNeverMatches | grep/grep.py:79-85 | a file that cannot be opened never matches, whatever the strategy |
| GrepProperties.TruncatedRawSpec | grep/grep.py:229-231 | with `a = len(split_str[0] + term)` and `b = len(split_str[1])`, the text before `strip` is a prefix of the line that starts with `split_str[0] + term`; its length is `a` plus `a` when `a < b`, plus `a - b` when `a - b < b`, and plus `b` otherwise |
| GrepProperties.TruncatedRawPrefix | grep/grep.py:229-231 | `split_str[0] + term` is the first `a` characters of the line, and the text before `strip` is the line cut after `a` plus the kept part of `split_str[1]` |
| GrepProperties.SliceKeeps | grep/grep.py:230-231 | the slice `split_str[1][:-len(split_str[1]) + a]` following a prefix of length `a` continues that prefix along the line, by the stated number of characters |
| GrepProperties.LeadingTerm | grep/grep.py:229-231 | for a line `term + rest` with no occurrence of the term in `rest` (`a = len(term)`, `b = len(rest)`), the text before `strip` is the term followed by the first `a` characters of `rest` when `a < b`, the first `a - b` when `a - b < b`, and all of `rest` otherwise |
| GrepProperties.TruncationExample | grep/grep.py:229-231 | `'aware werwer\n'` searched for `'aware'` records `'aware werw'` |
| GrepProperties.TruncationWholeLine | grep/grep.py:229-231 | `'aware\n'` searched for `'aware'` records `'aware'` |
| GrepProperties.AnyTermFiresIff | grep/grep.py:224-227 | the binary gate fires exactly when some line contains the non-empty term |
| GrepProperties.EmptyTermRecordsEveryLine | grep/grep.py:219-222 | the empty term maps every line number `1..n` to `line.strip()`, one entry per line, even for a binary file |
| GrepProperties.TermDictionary | grep/grep.py:219-231 | for a non-empty term, keys increase, and line `n + 1` maps to the truncated text exactly when the line contains the term |
| GrepProperties.LinesForTermSpec | grep/grep.py:224-236 | `{'file_matched': ''}` exactly when the file is binary and some line contains the term, earlier entries discarded; otherwise the line dictionary |
| GrepProperties.TwoLineSearch | grep/grep.py:219-236 | a two-line text file in which both lines record something, searched without the binary gate, gives `{1: first, 2: second}` |
| GrepProperties.LineByLineExample | grep/grep.py:211-236 | `'aware\naware werwer\n'` searched for `'aware'` gives `{1: 'aware', 2: 'aware werw'}` |
| GrepProperties.AnyHitsIff | grep/grep.py:253-257 | the binary gate fires exactly when `findall` finds something on some line |
| GrepProperties.RegexDictionaryAt | grep/grep.py:248-270 | line `n + 1` maps to: the stripped line for the empty term when there are no hits; nothing otherwise; the stripped line when the first hit is `''`; else the text truncated at the first hit |
| GrepProperties.RegexDictionaryOrdered | grep/grep.py:248-270 | the regex dictionary has at most one entry per line, keys in `1..n`, increasing |
| GrepProperties.LinesForRegexSpec | grep/grep.py:253-275 | `{'file_matched': ''}` exactly when the file is binary and some line has hits; otherwise the line dictionary |
| GrepProperties.EmptyPatternMatchesEveryLine | grep/grep.py:250-270 | the empty pattern gives the sentinel for a non-empty binary file, and otherwise the same dictionary as the empty literal term |
| GrepProperties.CompileErrorNoMatch | grep/grep.py:97-113 | a pattern that does not compile gives no match in either regex strategy |
| GrepProperties.KeptSpec | grep/grep.py:47-52 | the paths kept by the `if matched_file:` filter are exactly those for which the search matched, no more than were given |
| GrepProperties.KeptAppend | grep/grep.py:47-52 | filtering a concatenation of path lists is the concatenation of the filtered lists |
| GrepProperties.MatchedPathsSpec | grep/grep.py:45-61 | `run` keeps exactly the paths whose search matched, no more paths than were searched |
| GrepProperties.MatchedPathsAppend | grep/grep.py:47-52 | the matched paths of consecutive batches are concatenated in enumeration order |
| PrintHelper.UncolorColor | grep/print_helper.py:9-19 | a coloured string is its start code, the text and `'\033[0m'`, so the text can be recovered |
| PrintHelper.ColorBlue | grep/print_helper.py:9-10 | `color_blue` wraps the term in `'\033[0;34m'` … `'\033[0m'` |
| PrintHelper.ColorGreen | grep/print_helper.py:13-14 | `color_green` wraps the term in `'\033[0;32m'` … `'\033[0m'` |
| PrintHelper.ColorPurple | grep/print_helper.py:17-18 | `color_purple` wraps the term in `'\033[0;35m'` … `'\033[0m'` |
| PrintHelper.ColorsDistinct | grep/print_helper.py:9-19 | the three colours never produce the same string, whatever text they wrap |
| PrintHelper.RemoveLastNewline | grep/print_helper.py:75 | `''.join(f.rsplit('\n', 1))`; characterised by `RemoveLastNewlineSpec` |
| PrintHelper.RemoveLastNewlineSpec | grep/print_helper.py:75 | `''.join(f.rsplit('\n', 1))` removes exactly the last `'\n'`, and leaves a string without one unchanged |
| PrintHelper.RemoveFinalNewline | grep/print_helper.py:75 | a line ending in `'\n'` loses that newline and nothing else |
| PrintHelper.NoNewlineKept | grep/print_helper.py:140 | a string without `'\n'` keeps every character |
| PrintHelper.ColorTermInString | grep/print_helper.py:149-170 | the decorator raises `IndexError` exactly when the term is non-empty and the list is empty |
| PrintHelper.ColorMatchedItems | grep/print_helper.py:173-175 | the decorated identity raises exactly when the term is non-empty and the output is empty |
| PrintHelper.HighlightSpec | grep/print_helper.py:159-165 | with a non-empty term and no binary notice first: same number of lines; only the last occurrence in each line is wrapped in bold red; lines without the term are unchanged |
| PrintHelper.HighlightUnchanged | grep/print_helper.py:159-168 | with an empty term, or a binary-file notice first, the list is returned unchanged |
| PrintHelper.LastOccurrence | grep/print_helper.py:164 | an occurrence after which the term's first character never appears is the one `rsplit(term, 1)` cuts at |
| PrintHelper.HighlightExample | tests/test_print_helper.py:60-68 | `'Thebrownfoxjumpsover.'` with `'fox'` becomes `'Thebrown\033[1;31mfox\033[0mjumpsover.'` |
| PrintHelper.Items | grep/print_helper.py:54-71 | `lines.items()` yields one pair per dictionary entry, and one for a sentinel |
| PrintHelper.RenderFile | grep/print_helper.py:55-72 | one file adds one line for a binary file, and one line per entry otherwise |
| PrintHelper.OutputCount | grep/print_helper.py:54-75 | the returned list has one line per (file, entry) pair, and one line per binary file |
| PrintHelper.RenderAllCount | grep/print_helper.py:54-72 | the list before newline removal has one line per (file, entry) pair, and one line per binary file |
| PrintHelper.SingleFileOutput | grep/print_helper.py:54-75 | for one matched file, the returned list is that file's lines, each without its last newline |
| PrintHelper.BinaryFileNotice | grep/print_helper.py:55-56 | a binary path yields exactly `'Binary file ' + f + ' matches'`, whatever its entries, and it is printed unhighlighted |
| PrintHelper.StdinBareValue | grep/print_helper.py:59-60 | from standard input, whatever the dictionary (`{'file': content}`, tokens or lines), each returned line is the bare value of an entry without its last newline, with no path and no line number |
| PrintHelper.WholeFileEntry | grep/print_helper.py:62-65 | in whole-file mode, an entry is the purple path, a separator and the value, with no line-number segment |
| PrintHelper.StdinExample | tests/test_print_helper.py:102-125 | `{'/tmp/sadf.tmp': {'file': 'aware'}}` from standard input returns `['aware']`, printed with `aware` in bold red |
| PrintHelper.RenderedEntry | grep/print_helper.py:66-71 | line by line, entry `i` of a file renders as the purple path, a separator, the green `str(line_num)`, a separator and the line |
| PrintHelper.TrimmedEntry | grep/print_helper.py:66-75 | such an entry whose line ends in `'\n'` is returned without that newline |
| PrintHelper.TwoEntriesOutput | grep/print_helper.py:54-75 | a file with two entries whose lines end in `'\n'` gives exactly those two rendered lines, newline removed, in order |
| PrintHelper.LineByLineOutput | grep/print_helper.py:67-71 | `'aware\n'` and `'aware werwer\n'` as lines 1 and 2: the purple path, a separator, the green line number, a separator and the line without its newline |
| PrintHelper.FullPathExample | tests/test_print_helper.py:10-32 | the full-path test vector, byte for byte, with green separators |
| PrintHelper.RelativePathExample | tests/test_print_helper.py:35-57 | the relative-path test vector, byte for byte, with blue separators |
| PrintHelper.RenderAllStep | grep/print_helper.py:54-71 | each file's lines are appended after those of the files before it |
| PrintHelper.BuildOutput | grep/print_helper.py:29-75 | the `output.extend` loop over files, followed by newline removal, equals `Output` |
| PrintHelper.GenerateOutputForMatchedFilesFullPath | grep/print_helper.py:21-81 | returns the newline-trimmed list with `normpath(f)` paths and green separators; prints its highlighted form; raises `IndexError` when it is empty and the term is not |
| PrintHelper.GenerateOutputForMatchedFilesRelativePath | grep/print_helper.py:84-146 | as the full-path variant, with `normpath(relpath(f))` paths and blue separators |
| RedonePrintHelper.RReplace | grep_redone/grep/print_helper.py:46-48 | `new.join(string.rsplit(old, n))`; characterised by `RReplaceAbsent`, `RReplaceLast` and `RReplaceLength` |
| RedonePrintHelper.RReplaceAbsent | grep_redone/grep/print_helper.py:46-48 | `rreplace` leaves a string without `old` unchanged |
| RedonePrintHelper.RReplaceLast | grep_redone/grep/print_helper.py:46-48 | with a count of 1, only the last occurrence is replaced; earlier occurrences stay |
| RedonePrintHelper.RReplaceLength | grep_redone/grep/print_helper.py:47-48 | when `old` occurs, one replacement gives length `len(s) - len(old) + len(new)` |
| RedonePrintHelper.RReplaceFinal | grep_redone/grep/print_helper.py:15 | a string ending in `old` has exactly that final occurrence replaced |
| RedonePrintHelper.FileEntries | grep_redone/grep/print_helper.py:10-11 | one entry per line of the file |
| RedonePrintHelper.Finished | grep_redone/grep/print_helper.py:14-19 | newline removal and colouring keep one line per entry |
| RedonePrintHelper.PrintMatchedFiles | grep_redone/grep/print_helper.py:8-24 | the loop that reassigns `output` for each file, then the two comprehensions, equals `Returned` |
| RedonePrintHelper.PrintMatchedFilesFullPath | grep_redone/grep/print_helper.py:6-24 | `print_matched_files_full_path` returns `Returned` with the `file + ':'` label |
| RedonePrintHelper.PrintMatchedFilesRelativePath | grep_redone/grep/print_helper.py:26-44 | `print_matched_files_relative_path` returns `Returned` with the `'./' + relpath(file) + ':'` label |
| RedonePrintHelper.OnlyLastFileSurvives | grep_redone/grep/print_helper.py:9-12 | whatever files come first, the result is the one for the last file alone, with one line per entry |
| RedonePrintHelper.EveryOccurrenceColoured | grep_redone/grep/print_helper.py:18-19 | with a non-empty term, every occurrence is replaced by the green term, and none is left in the pieces between |
| RedonePrintHelper.EntryShape | grep_redone/grep/print_helper.py:30-35 | with an empty term, an entry is the magenta label, `str(line_num)`, `':'` and the line without its final newline |

## Left out

- File I/O is not modelled. `open`, `readlines`, iterating a file and `close` become a `File` value, given as the list of lines as Python yields them.
- `Unopenable` and `Undecodable` stand for `open` raising `IOError` and for a decoding error. In line mode the error is raised before the first line is searched. Decoding that fails partway through a file, after some lines were searched, is not modelled.
- `file_helper.get_next_file` and `file_helper.is_binary_file` are not part of this model. The enumerated paths are a sequence input, and binary-ness is a predicate on paths.
- Python's regex engine (`re.compile`, `re.escape`, `re.findall`, `sre_constants.error`) is not modelled.
  - A compiled pattern is an arbitrary `findall` function, assumed to return substrings of its argument, as `re.findall` does for a pattern with at most one group.
  - Group-tuple results are not modelled.
  - `re.findall(re.escape(term), text)` is modelled through its consequence: its last hit is the term when the term occurs, and `''` otherwise.
- `os.path.normpath`, `os.path.relpath` and clint's `colored.magenta`/`colored.green` are arbitrary string functions, because they depend on the working directory or a foreign library. The test-vector lemmas take the `normpath` values of the tests as preconditions.
- Nothing is printed. `print` and `sys.stderr.write` are not modelled.
  - `generate_output_*` returns the printed lines next to the returned list.
  - `print_matched_files_*` is modelled by the list it returns.
  - `print_file_error` is left out, and so is the "Regex expression error" message.
- Grep.Searcher.Run: does not call `printing`. Its only effect is output, and its return value is unused. It cannot raise for a non-empty result, because every such result renders at least one line.
- The `sys.version_info` branches (`iteritems` against `items`) behave alike, so they are modelled once.
- The `previous` list in the whole-file searches is written but never read, so it is not modelled.
- The loop `for row in match: if not row: del row` only unbinds its loop variable, so it has no effect and is not modelled.
- Dictionaries iterate in insertion order (Python 3.7 and later). The grep_redone formatter's `iteritems()` is taken in that order too.
- `search_wrapper` returns `{}` after a caught error and `None` when `search_f` finds nothing. Both are falsy in `run`, so both are modelled as no match.
- PrintHelper.RenderFile: its own contract gives only the number of lines per file. The text of each line is stated by `RenderedEntry` (line by line), `WholeFileEntry` (whole file), `StdinBareValue` (standard input) and `BinaryFileNotice`.
- RedonePrintHelper.RReplace: requires a non-empty `old`. Python raises `ValueError` for an empty separator, and the formatter only ever passes `'\n'`.
- grep/__main__.py (argument parsing, reading standard input, temporary files) is not part of this model.
