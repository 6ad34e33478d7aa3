# lexitron in Dafny

lexitron searches English word lists with a regular expression and prints the
matches in columns that fit the terminal. This project models the parts of it
that do not depend on the regex engine, the files or the terminal.

The package `lexitron/lexitron.py` (module `Lexitron`, file `lexitron.dfy`):
- `sanitize` strips the quotation marks around an expression.
- `parse_line` takes the first token of a word-list line.
- `search` does three things:
  - it refuses `-u` together with `-U`;
  - it scans each selected word list for matches;
  - it turns each result list into a sorted list without duplicates.
- `header` writes a summary of four lines.
- `formatted` lays the matches out in a column-major grid.

The original script `lexitron.py` (module `Legacy`, file `legacy.dfy`):
- the anchoring and possessive filter of `search`;
- `sanitize`;
- `counts`, which splits matches into proper nouns and common words;
- `k`;
- the boxed `header`;
- `wordcols`, the older grid layout.

The dictionary splitter `lexitron/dict_util.py` (module `DictUtil`, file
`dict_util.dfy`) has one loop. It strips each dictionary line, keeps the words
made only of letters, and sorts them into lower-case and upper-case lists.

The shared modules model the Python built-ins the code relies on:
- `Strings` (`strings.dfy`): `str.isspace`, the whitespace set of `bytes.split`, `ljust`, `rstrip`, `strip`, `join`, `split`, and `str(n)` with its decimal read-back.
- `Lists` (`lists.dfy`): list comprehensions with a condition.
- `Ordering` (`ordering.dfy`): Python's ordering of strings and `sorted(list(set(xs)))`.

These are abstract parameters:
- the regular expression: a predicate on words, or a predicate on pattern, case flag and word in the legacy script, with a second predicate saying whether the pattern compiles;
- `str.isalpha`, `str.islower` and `str.isupper` on one character;
- the word lists and the dictionary: sequences of lines;
- the terminal size.

Code that loops and appends becomes a Dafny `method` with a loop. Each such method is proved against a function:
- `Lexitron.ScanWordlist`
- `Lexitron.JustifiedRows`
- `Legacy.GridRowsOf` and `Legacy.GridLine`
- `DictUtil.SplitWords`

`Lexitron.Formatted` and `Legacy.WordCols` have no loop of their own. They are
methods that call the looping methods `Lexitron.JustifiedRows` and
`Legacy.GridRowsOf`, and each is proved against a function too.

`Legacy.Header` has no loop, but it builds its text by successive `+=`. It is a
method that appends in the same steps, proved against the function that gives
the whole header.

Expression code becomes functions with lemmas.

## Model

| member | source | states |
|---|---|---|
| Lexitron.Sanitize | lexitron/lexitron.py:89-93 | fails with an index error exactly on the empty expression and on a lone quotation mark; otherwise the expression minus one quotation mark at the front, if there is one, and one at the back, if there is one |
| Lexitron.SanitizeQuoted | lexitron.py:104-107 | an expression with no quotation mark at either end comes back unchanged, and wrapping it in quotation marks gives the same result; the legacy script's `sanitize` is the same code as the package's, so `Lexitron.Sanitize` models both |
| Lexitron.ParseLine | lexitron/lexitron.py:95-99 | fails with an index error exactly when the line is all whitespace; otherwise the result is a non-empty run of non-whitespace, preceded only by whitespace and ended by whitespace or the end of the line |
| Lexitron.Words | lexitron/lexitron.py:73-74 | one token per line; token `i` is the token of line `i` |
| Lexitron.WordsSnoc | lexitron/lexitron.py:73-74 | a list that parses, extended by a line that parses, still parses, and its tokens gain that line's token at the end |
| Lexitron.ScanStep | lexitron/lexitron.py:73-76 | one more parsed line adds its token to the matches exactly when the predicate accepts it |
| Lexitron.ScanWordlist | lexitron/lexitron.py:72-82 | fails with an index error exactly when some line has no token; otherwise returns the matching tokens of the list, in list order |
| Lexitron.Search | lexitron/lexitron.py:60-87 | raises the options error with its message when `-u` and `-U` are both set; fails exactly then, or when a scanned list has a line without a token, and that failure is an index error; otherwise each result is strictly ascending and holds exactly the matching tokens of its list, and is empty when that list is not searched; each result is `sorted(set(...))` of the list's matches in list order |
| Lexitron.SearchIgnoresListOrder | lexitron/lexitron.py:84-85 | two word lists with the same tokens, in any order and with any repeats, give the same result of `search` |
| Ordering.SortedSet | lexitron/lexitron.py:84-85 | `sorted(list(set(xs)))` is strictly ascending in Python's string order and has exactly the elements of `xs` |
| Ordering.AscendingUnique | lexitron/lexitron.py:84-85 | a strictly ascending list is determined by its elements |
| Ordering.LessTotal | lexitron/lexitron.py:84-85 | Python's string order is total: of two different strings, one sorts first |
| Ordering.LessTransitive | lexitron/lexitron.py:84-85 | Python's string order is transitive |
| Lexitron.Header | lexitron/lexitron.py:128-144 | fails exactly when sanitizing the expression fails; otherwise four newline-ended lines: a rule of `width` dashes, the total count and the expression, the breakdown, and the rule again |
| Lexitron.HeaderLines | lexitron/lexitron.py:128-144 | when the expression has no newline, splitting the header at newlines gives the four lines and an empty rest; the count that opens the second line reads back as the number of matches; the breakdown is "(restricted search)" exactly when `-u` or `-U` was set |
| Lexitron.BreakdownRestricted | lexitron/lexitron.py:133-138 | the breakdown is "(restricted search)" exactly when the search was restricted to one category |
| Strings.NatToString | lexitron/lexitron.py:133 | `str(n)`: at least one digit, no leading zero, and its decimal value is `n` |
| Lexitron.MaxLength | lexitron/lexitron.py:149 | `colwidth` is at least every word's length and equals some word's length |
| Lexitron.MaxColumns | lexitron/lexitron.py:151-154 | `maxnumcols` is at least 1; that many columns with their gutters fit the width unless not even one does; one more column would not fit |
| Lexitron.FitsIff | lexitron/lexitron.py:152-154 | `c` columns with gutters fit the width exactly when `c * (colwidth + gutter) <= width + gutter`, which is the equation the floor solves |
| Lexitron.CeilDiv | lexitron/lexitron.py:158 | `ceil(a / b)` in integers: the least `q` with `q * b >= a` |
| Lexitron.HeightColumns | lexitron/lexitron.py:157 | `ceil(n / (H/2))` in integers: the least column count with `h * H >= 2n` |
| Lexitron.HeightColumnsPositive | lexitron/lexitron.py:157 | a non-empty list needs at least one column by the height rule |
| Lexitron.Layout | lexitron/lexitron.py:149-162 | `1 <= numcols <= maxnumcols`; `numcols` is the height-based count or the width cap; `numrows >= 1`; `numcols * numrows >= n` and `numcols * numrows - n < numcols` |
| Lexitron.RowsFit | lexitron/lexitron.py:158 | `ceil(n / cols)` rows of `cols` cells hold `n` words, with less than a row to spare |
| Lexitron.Blanks | lexitron/lexitron.py:166 | `[''] * k` has `max(k, 0)` empty strings |
| Lexitron.Padded | lexitron/lexitron.py:166 | the padded list has exactly `numcols * numrows` cells; the first `n` are the words unchanged and the rest are empty |
| Lexitron.PaddedFits | lexitron/lexitron.py:149-166 | no padded cell is longer than `colwidth` |
| Lexitron.StepSliceAt | lexitron/lexitron.py:171 | element `j` of `s[start::step]` is `s[start + j*step]` |
| Lexitron.StepSliceLength | lexitron/lexitron.py:171 | `s[start::step]` has the number of elements the index arithmetic predicts |
| Lexitron.ColumnMajor | lexitron/lexitron.py:168-171 | `words[k::numrows]` of the padded grid has `numcols` elements, column `j` holding the cell at flat index `k + j*numrows` |
| Lexitron.JustifiedRow | lexitron/lexitron.py:170-171 | the justified cells of row `k`: one per column, each `colwidth + gutter` wide, column `j` the cell at `k + j*numrows` left-justified |
| Lexitron.JustifiedCellAt | lexitron/lexitron.py:170 | in a row of equally wide cells, cell `j` starts at offset `j * width` and begins with its word |
| Lexitron.GridRowCells | lexitron/lexitron.py:170-171 | before stripping, every row is `numcols * (colwidth + gutter)` long, and column `j` starts at offset `j * (colwidth + gutter)` with the word at `k + j*numrows` |
| Lexitron.RowCells | lexitron/lexitron.py:146-171 | the same as GridRowCells, for the layout and padding that `formatted` chooses |
| Lexitron.RowsStripped | lexitron/lexitron.py:171 | there are `numrows` rows; row `k` is a prefix of its unstripped row, does not end in whitespace, and only whitespace was cut |
| Strings.RStrip | lexitron/lexitron.py:171 | `rstrip` keeps a prefix that does not end in whitespace and drops only whitespace |
| Strings.LJust | lexitron/lexitron.py:170 | `ljust(width)` starts with the word, is `max(len, width)` long and is padded with spaces |
| Strings.ConcatUniform | lexitron/lexitron.py:170 | joining `m` pieces of width `w` gives `m*w` characters, piece `j` at offset `j*w` |
| Lexitron.JustifiedRows | lexitron/lexitron.py:168-171 | the loop builds, row by row, exactly the stripped rows of the grid |
| Lexitron.Formatted | lexitron/lexitron.py:146-174 | the output is the stripped rows of the column-major grid of the layout, each followed by a newline |
| Lexitron.OutputLines | lexitron/lexitron.py:173 | when no word holds a newline, splitting the output at newlines gives back exactly the `numrows` rows and the empty rest after the final newline |
| Lexitron.RowFree | lexitron/lexitron.py:170-171 | a row built from newline-free words holds no newline |
| Strings.LinesSplit | lexitron/lexitron.py:173 | newline-free lines joined by newlines, plus a final newline, split back into the lines and an empty rest |
| Strings.SplitJoin | lexitron/lexitron.py:173 | splitting at a separator undoes joining with it when no piece holds it |
| Legacy.Pattern | lexitron.py:93-94 | fails exactly when sanitizing fails; otherwise the sanitized expression, wrapped in `^` and `$` unless the search is global |
| Legacy.Search | lexitron.py:92-102 | fails exactly when sanitizing fails (an index error) or when the pattern does not compile (`re.error`); otherwise the result holds no empty line and no possessive; a word is in it exactly when it is a kept dictionary line that the pattern matches; it is no longer than the dictionary |
| Lists.Filter | lexitron.py:97-101 | a conditional comprehension keeps exactly the elements that meet the condition, in order |
| Legacy.SearchFeedsCounts | lexitron.py:97-111 | every result of a search is non-empty, so `w[0]` in `counts` is safe |
| Legacy.Counts | lexitron.py:110-113 | `props` is the results with an upper-case first character, in result order; `imps` is the rest in result order; together they are the results |
| Lists.FilterPartition | lexitron.py:110-113 | a condition and its complement split a list between them |
| Lists.FilterCongruent | lexitron.py:112 | `w not in props` selects the same words as "first character not upper case" |
| Legacy.K | lexitron.py:142 | `k(l)` is a string of decimal digits whose value is `len(l)` |
| Legacy.AsWrittenNeverGiven | lexitron.py:118-130 | as written, `'-g' in opts` and the other three tests are false for every option list |
| Legacy.Extras | lexitron.py:117-122 | the options line is empty exactly when neither mode was asked for; it names the global mode first and ends in " search" |
| Legacy.HeaderAsWrittenIgnoresOptions | lexitron.py:115-139 | as written, the header is the same for every option list: both counts and no options line |
| Legacy.GlobalSearchNotReported | lexitron.py:118-137 | for `-g cat`, the header as written is the plain header with the two counts and no options line; the intended header is that text with the line "global search" inserted before the closing rule |
| Legacy.HeaderTextOptionsLine | lexitron.py:137 | a header with options is the header without them plus the options line, inserted just before the closing rule of 50 `=`; nothing else depends on the options text |
| Legacy.HeaderIntendedReportsOptions | lexitron.py:117-132 | with options looked up by name, the options line appears exactly when `-g` or `-c` was given and starts with "global" under `-g`; the categories line is "excluding proper nouns" under `-n` alone, "proper nouns only" under `-p` alone, "searching the empty set" under both, and the two counts under neither |
| Legacy.Header | lexitron.py:115-139 | building the header line by line gives the intended header |
| Legacy.RoundHalfEven | lexitron.py:156 | `round(a / b)` is within half of `b` of `a`, with ties going to the even integer |
| Legacy.GridColumns | lexitron.py:156 | `1 <= cols <= max(1, width // (tab+7))`; `cols` is at most the rounded count and equals either `max(1, width // (tab+7))` or `max(1, round(len(words) / 9))` |
| Legacy.PaddingFillsGrid | lexitron.py:157-162 | the padding count `(cols - (wcount - cols*height)) % cols` equals `cols*height - wcount` |
| Legacy.CellIndex | lexitron.py:165-168 | every index `i + c*height` the loop reads is inside the padded list |
| Legacy.GridPadded | lexitron.py:162 | the padded list has exactly `cols * height` cells, the words first and then blanks |
| Legacy.WordCols | lexitron.py:145-176 | with `ugly` set, the comma-joined words and a newline; no words gives nothing; fewer than `2*mincolheight` words give one column of " + " lines; otherwise the grid lines joined by newlines, with a final newline |
| Legacy.GridRowsOf | lexitron.py:164-174 | the outer loop yields grid line `i` at position `i` |
| Legacy.GridLine | lexitron.py:166-173 | the inner loop yields the cells of row `i`, taken from `words[i::height]` in column order |
| Legacy.OnlyWordsShow | lexitron.py:169-172 | when every word has a visible character, the cell at row `i`, column `c` is printed exactly when it holds a word rather than padding |
| Strings.Strip | lexitron/dict_util.py:20 | `strip` returns a contiguous piece of the line with only whitespace before and after it, with no whitespace at either end; it is empty exactly when the line is all whitespace |
| DictUtil.Candidates | lexitron/dict_util.py:19-24 | the kept words are the stripped lines that are made only of letters, in line order, and no more of them than there are lines |
| DictUtil.CandidatesTrimmed | lexitron/dict_util.py:20-24 | every kept word is the stripped form of some line: non-empty, with no whitespace at either end |
| DictUtil.SplitWords | lexitron/dict_util.py:19-33 | the loop builds the three lists line by line, as the classification of the lines prescribes |
| DictUtil.ClassifyStep | lexitron/dict_util.py:19-33 | one more line adds its stripped form to a category's list exactly when that form is all letters and falls into the category |
| DictUtil.ClassifiedFilters | lexitron/dict_util.py:19-33 | each list holds the kept words of its category in dictionary order: lower-case initial, upper-case but not lower-case initial, or neither |
| DictUtil.ClassificationPartition | lexitron/dict_util.py:26-33 | the three branches are exclusive and exhaustive: every kept word is in exactly one list |
| DictUtil.SplitWordsSound | lexitron/dict_util.py:19-33 | every common word is a kept word with a lower-case initial, every proper word one with an upper-case initial; no word is in both; with the reported words they are exactly the kept words |

## Left out

- Argument parsing (`argparse`, `getopt`), usage and version text: library plumbing.
- Reading the packaged word lists, the dictionary file and `words.txt`, and writing the two output files of `lexitron/dict_util.py`: I/O. The model takes and returns sequences of lines.
- `bytes.splitlines`, and the `.decode()` of `parse_line`, are not modelled. Lines are strings, and the token is split at the whitespace bytes of `bytes.split`.
- `os.get_terminal_size`, the width adjustment in `print_results`, and all printing are left out. The terminal width and height are parameters, and `lexitron.py`'s global `_terminalwidth` is one too.
- The regular-expression engine is left out. `re.compile` and `.search` become caller-supplied predicates. In the legacy script, whether a pattern compiles is a predicate on the pattern and the case flag, and `re.error` becomes an error result.
- The `re.compile(expr, ...)` at lexitron/lexitron.py:68 is left out. That line reads `expr` before it is assigned, so `search` as written raises `UnboundLocalError`. The model takes the match predicate as a parameter instead.
- `str.isalpha`, `str.islower` and `str.isupper` on a character are caller-supplied predicates. Unicode character classes are not modelled.
- Floating point is left out. `floor`, `ceil` and float division in `formatted` and `wordcols` become exact integer arithmetic. Python's `round` becomes round-half-to-even on the exact quotient.
- Lexitron.Formatted requires a non-empty word list and `termheight >= 1`. On an empty list the source's `max` raises `ValueError`, and a height of 0 divides by zero. A negative height would give one column in the source and return normally. `os.get_terminal_size` never reports one, so the model excludes it.
- DictUtil.SplitWords: the words that are neither lower nor upper case are returned in a third list instead of being printed as error messages.
- The identity copies at lexitron/dict_util.py:35-36 are left out because they change nothing.
- `wordcols` is modelled only with its default `mincolheight` of 9, the only value the script passes.
- Legacy.Search: the dictionary is taken as already split at newlines. Case sensitivity is passed to the match predicate rather than modelled.
- Blank or malformed word-list lines are not skipped. As coded, `parse_line` raises `IndexError` on a line without a token, and that ends the search. The model follows the code.
- setup.py is packaging and is not part of this model.

## Findings

| source | as written | input that shows it | evidently intended | confidence | as-written member | corrected member |
|---|---|---|---|---|---|---|
| lexitron.py:118-130 | `'-g' in opts` looks for a string in the list of (option, value) tuples that `getopt` returns, so it is always false; the same holds for `-c`, `-n` and `-p` | `lexitron.py -g cat`: `opts == [('-g', '')]`, and the header has no "global search" line | report the modes and categories the user asked for, by looking options up by name | high; not executed | Legacy.GlobalSearchNotReported | Legacy.HeaderIntendedReportsOptions |
