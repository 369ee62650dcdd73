# git_aiblame core, modelled in Dafny

`git_aiblame` annotates `git blame` output with the AI tool that helped
write each commit. This project models three pieces of its logic and
proves properties of them.

- **Porcelain parser** (`blame.dfy`, module `Blame`).
  - `parse_blame_output` turns `git blame --line-porcelain` output into
    `BlameLine` records: line number, commit hash, author and content.
  - The source indexes `output[i]`. Its body is written for whole lines,
    but on a Python `str` every element is one character. The model takes
    the input as a sequence of *elements*, which covers both readings.
  - The specification is a state machine. `Step` reads one element kind
    (`Classify`) and has two modes: awaiting a header or content line, and
    inside a header's metadata. `Scan` folds `Step` over the input, and
    `Parse` is the result.
  - `ParseBlameOutput` keeps the source's outer and inner `while` loops
    over `i` and is proved to compute `Parse`. It terminates because `i`
    advances on every path.
  - The `IndexError` from `line.split()[0]` on a blank element is the
    `None` result.
  - `Attribute` is an independent reference reading of which hash and
    author a record carries. `RecordAttribution` ties it to the scan.
- **Commit classifier** (`detector.dfy`, module `Detector`).
  - `AIDetector` holds an ordered table of (tag, patterns) groups and
    reports the first group with a matching pattern.
  - The table is a sequence of pairs, because Python dicts keep insertion
    order.
  - Regular-expression search is the detector's function-valued field
    `search` over an abstract `Regex`.
  - The default table `config.AI_PATTERNS` is the constructor's `defaults`
    parameter.
- **Plain formatter** (`formatter.dfy`, module `Formatter`).
  - `format_plain` renders one row per record,
    `f"{line_number:4d} | {commit_hash[:7]} | {author:12} | {content}"`,
    and joins the rows with `"\n"`.
  - `FormatPlain` keeps the source's loop over the records and is proved
    to compute `Join(Rows(...))`.
  - `Split` is the inverse of `Join` on rows without newlines.
- **Support modules.**
  - `text.dfy` (module `Text`) holds the Python `str` operations these
    pieces use: `startswith`, `rstrip("\n")`, `split()[0]`, `isalnum`,
    `rjust`, `ljust` and decimal rendering.
  - `wrappers.dfy` holds `Option`.

### Where the code and its tests disagree

- The rows the code writes differ from what `tests/test_formatter.py:34-35`
  expects. `{author:12}` pads the author to 12 characters and `" | "`
  follows. Each test string holds one space fewer before the third bar
  than the row: four against five after "John Doe", two against three
  after "Jane Smith".
- The model follows the code. `Formatter.FixtureRows` states the rows the
  f-string produces for the test fixture. `Formatter.FixtureExpectations`
  states that neither expected string occurs anywhere in that output, so
  the test's `... in result` assertions do not hold for the code as
  written.

## Model

| member | source | states |
|---|---|---|
| Text.RStripNewlinesSpec | src/git_aiblame/blame.py:85 | `rstrip("\n")` keeps a prefix of its argument that does not end in a newline, and everything it removes is a newline |
| Text.FirstTokenSpec | src/git_aiblame/blame.py:98-99 | `split()[0]` of a non-blank string is non-empty and free of whitespace; only whitespace precedes it, and whitespace or the end follows it |
| Text.AlnumStartToken | src/git_aiblame/blame.py:98-99 | an element starting with an alphanumeric character is not blank, and its first token starts at its first character |
| Text.RJust | src/git_aiblame/formatter.py:20 | right alignment pads with spaces on the left to at least the width, keeps the text as the suffix, and never truncates |
| Text.LJust | src/git_aiblame/formatter.py:20 | left alignment keeps the text as the prefix and pads with spaces on the right to at least the width, never truncating |
| Text.NatToDecimal | src/git_aiblame/formatter.py:20 | the decimal rendering of `n` is non-empty, all digits, has no leading zero, and denotes `n` |
| Text.DecimalCanonical | src/git_aiblame/formatter.py:20 | conversely, every digit string without a leading zero is the rendering of the number it denotes |
| Blame.TestHeaderSpec | src/git_aiblame/blame.py:98-99 | the header test raises exactly on blank elements; it accepts exactly when the first 40 characters are alphanumeric or the first token has length 40; the hash it takes is the first token |
| Blame.ClassifySpec | src/git_aiblame/blame.py:80-110 | each element kind in terms of the source's tests, in their order: the author prefixes, then the tab, then the header test; the author name, the content text and the hash it carries |
| Blame.Step | src/git_aiblame/blame.py:77-110 | one element fails exactly when it is blank and met at the top of the outer loop; otherwise the records emitted so far are kept |
| Blame.OuterStep | src/git_aiblame/blame.py:80-101 | one pass of the outer loop's body: author fields are skipped, a tab element emits a record with the element's content, a header sets the hash and enters the metadata, a blank element raises, anything else is skipped |
| Blame.MetadataStep | src/git_aiblame/blame.py:102-108 | one pass of the inner loop's body: an `author ` line sets the author to its text with trailing newlines removed, a tab element ends the span, and every other element, a second header included, changes nothing |
| Blame.Parse | src/git_aiblame/blame.py:71-112 | empty input yields the empty record list |
| Blame.ParseBlameOutput | src/git_aiblame/blame.py:61-112 | the source's nested loops compute exactly `Parse`, the fold of the state machine over the elements, `None` standing for the `IndexError` |
| Blame.ScanMetadata | src/git_aiblame/blame.py:102-108 | the inner loop stops at the end of input or at a tab element without consuming it, and leaves the scan in the state the state machine reaches with the author it found |
| Blame.ScanRecords | src/git_aiblame/blame.py:84-96 | a successful scan has emitted one record per content element, numbered 1, 2, ... in order, each carrying that element's text, and the next number is one past the last |
| Blame.ParseRecords | src/git_aiblame/blame.py:84-96 | when parsing succeeds there is exactly one record per tab element, in input order; the k-th record (from 0) is numbered k + 1 and its content is its element without the tab and trailing newlines |
| Blame.CharacterElements | src/git_aiblame/blame.py:77-85 | when every element has length 1, as when `output` is a `str`, every record's content is empty |
| Blame.LastAuthor | src/git_aiblame/blame.py:104-105 | the author carried out of a metadata span is the name on its last `author ` line, or the incoming author when it has none |
| Blame.SkippedSegment | src/git_aiblame/blame.py:80-82 | at the top of the outer loop, author fields and elements that are neither tab elements nor headers change no state |
| Blame.MetadataSegment | src/git_aiblame/blame.py:102-108 | a metadata span without tab elements only sets the author, to the last author line's name |
| Blame.FirstUnskipped | src/git_aiblame/blame.py:98-110 | from the top of the outer loop, the first element that is not skipped decides: a header sets the hash and the author becomes the last author line after it; a blank element raises |
| Blame.SegmentFromTop | src/git_aiblame/blame.py:77-110 | the elements between two tab elements emit nothing and leave the hash and author that `Attribute` computes, or raise where `Attribute` fails |
| Blame.RecordAttribution | src/git_aiblame/blame.py:73-105 | every record carries the hash and author that `Attribute` computes from the elements since the previous tab element, starting from the previous record's hash and author, or from `""` and `""` for the first record |
| Blame.ScanFailure | src/git_aiblame/blame.py:98 | the state machine fails exactly when some blank element is met at the top of the outer loop |
| Blame.ParseFailure | src/git_aiblame/blame.py:98 | parsing raises exactly when some blank non-tab element is reached after only skipped elements since the previous tab element or the start |
| Blame.NoBlankElementsNoFailure | src/git_aiblame/blame.py:98 | input without blank elements always parses |
| Detector.ChoosePatterns | src/git_aiblame/detector.py:14 | the given table is used unless it is missing or empty, in which case the defaults are used; the result is empty only when both are |
| Detector.Compile | src/git_aiblame/detector.py:15-18 | compiling keeps the keys in order and compiles one entry per source pattern in every group |
| Detector.CompileSources | src/git_aiblame/detector.py:15-18 | the compiled table's sources read back as the pattern table, so keys, group order and pattern order are all kept |
| Detector.CompileDistinct | src/git_aiblame/detector.py:15-18 | compiling keeps the keys distinct |
| Detector.FirstMatchSpec | src/git_aiblame/detector.py:29-33 | `detect` returns the tag of the first group in table order with any matching pattern, and `None` exactly when no pattern of any group matches |
| Detector.FirstMatchIsKey | src/git_aiblame/detector.py:29-32 | a tag `detect` returns is one of the table's keys |
| Detector.FirstMatchPrecedence | src/git_aiblame/detector.py:29-32 | once a group matches, no later group's tag is returned, whatever matches there |
| Detector.AIDetector.constructor | src/git_aiblame/detector.py:12-18 | the detector keeps the chosen table, whose keys are distinct as a dict's are, and its compilation |
| Detector.AIDetector.Detect | src/git_aiblame/detector.py:20-33 | the nested search with early return computes the first match over the compiled table, and never reports a group that comes after a matching one |
| Detector.AIDetector.IsAiAssisted | src/git_aiblame/detector.py:35-37 | the answer is whether `detect` finds a tag, which holds exactly when some pattern of some group matches |
| Detector.AIDetector.ParseCommitMessage | src/git_aiblame/detector.py:39-52 | `ai_type` is `detect`'s answer, `is_ai` says whether there is one, and a detected tag is a key of the pattern table |
| Formatter.FormatPlain | src/git_aiblame/formatter.py:8-22 | the loop's output is the rows of the records in order, joined by newlines; no records give `""` |
| Formatter.SplitJoin | src/git_aiblame/formatter.py:22 | splitting the join of a non-empty list of newline-free rows at `"\n"` gives back the rows, so the join adds exactly one newline between rows and none at the end |
| Formatter.JoinSplit | src/git_aiblame/formatter.py:22 | joining the pieces of any string split at `"\n"` gives back the string |
| Formatter.FormatLines | src/git_aiblame/formatter.py:17-22 | the output's lines are exactly the records' rows, in order, when no field holds a newline |
| Formatter.RowNoNewline | src/git_aiblame/formatter.py:20 | a row holds no newline when its hash, author and content hold none |
| Formatter.RowColumns | src/git_aiblame/formatter.py:20 | a row is the number column, the hash column, the author column and the content verbatim, in that order, separated by `" \| "`, and nothing else |
| Formatter.HashColumn | src/git_aiblame/formatter.py:20 | the hash column is the first 7 characters of the hash, or the whole hash when it is shorter |
| Formatter.AuthorColumnLayout | src/git_aiblame/formatter.py:20 | the author column is the author left-aligned and space-padded to at least 12 characters, never truncated |
| Formatter.NumberColumnLayout | src/git_aiblame/formatter.py:20 | the number column is the decimal number right-aligned and space-padded to at least 4 characters, never truncated |
| Formatter.NumberColumnValue | src/git_aiblame/formatter.py:20 | past its padding, the number column of a non-negative line number holds the canonical digits of that number |
| Formatter.FixtureRows | tests/test_formatter.py:12-25 | the two fixture records render as rows whose number is right-aligned in 4 characters, whose hash is cut to 7 characters, and whose author is padded to 12 characters and then followed by the separator and the content |
| Formatter.FixtureLines | tests/test_formatter.py:31-33 | the fixture's output splits back into its two rows |
| Formatter.FixtureExpectations | tests/test_formatter.py:34-35 | neither string the test looks for occurs in the fixture's output, as a line or anywhere else: each has one space fewer before the third bar than its row |
| Formatter.FixtureOutputMissesFirst | tests/test_formatter.py:34 | `"   1 \| abc123d \| John Doe    \| def hello():" in result` is false for the fixture's output |
| Formatter.FixtureOutputMissesSecond | tests/test_formatter.py:35 | `"   2 \| def456a \| Jane Smith  \|     return 'world'" in result` is false for the fixture's output |

## Left out

- Running git: `run_git_blame`, `get_commit_message` and `get_line_attribution` (src/git_aiblame/blame.py:20-58 and 115-129) are subprocess I/O and glue, so they are not modelled.
- src/git_aiblame/cli.py is argument parsing only and is not part of this model.
- The `detector` argument of `parse_blame_output` is never used, so the model drops it.
- Regular expressions:
  - `re.compile` and `pattern.search` are not modelled. A compiled pattern is an abstract `Regex` holding its source, and matching is the detector's `search` field.
  - An invalid pattern's compile error is not modelled.
- The contents of `config.AI_PATTERNS` are not part of this model. The table is the constructor's `defaults` parameter.
- Text.IsSpace: covers ASCII whitespace only, not all of Unicode's `str.isspace` as `str.split()` uses it.
- Text.IsAlnumChar: covers ASCII letters and digits only, not all of Unicode's `str.isalnum`.
- Python's `str` and `dict` objects are not modelled as such:
  - `parse_commit_message` returns a dict, and the model returns a `CommitAttribution` datatype with the same two entries instead.
  - The parser returns a fresh list, and the model returns a sequence.
- `format_colored` and any statistics are imported by tests/test_formatter.py but are not in the formatter shown, so they are not modelled.
- tests/test_blame.py:40-61 feed a one-line `hash (author ...)\ttext` format that this parser does not read. No property is drawn from them.
