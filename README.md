# parse_uart_data — a verified model of the D6T frame parser

The Omron D6T-32L thermal sensor demo reads its 32×32 frames from a UART as
text. The function `parse_uart_data` in `visualize.py` reads lines, strips
them and appends the non-blank ones (each with a line feed) to a text
buffer. After every line it searches the whole buffer for the first
`PTAT: <t> C, PEC: 0x<hh>` reading and the first `Avg Pixel Temp: <t> C`
reading. Once both are known it collects every buffer line that has
exactly 32 decimals separated by single spaces. When there are at least 32
such lines, it fills a 32×32 array from the first 32 and returns
`(ptat, avg_temp, pixels)`. If no frame was returned and the buffer holds
more than 10000 characters, the buffer is cleared. When the time runs out,
the function returns `(None, None, None)`.

The model is split into six modules:

- `Wrappers.dfy` holds `Option` and `Latest`: a new search result replaces a reading, and no result keeps it.
- `Text.dfy` models Python's `str.strip()` and `str.split()`, over the full `str.isspace()` set, and splitting on one character.
- `Decimals.dfy` models the literal `-?\d+\.\d+`. A literal is kept exactly (sign, integer digits, fraction digits), and `Value` gives the real number it denotes.
- `Patterns.dfy` holds the two scalar patterns. One recogniser handles both, with leftmost search (`re.search`).
- `Grid.dfy` holds the row pattern and `re.findall` with `re.MULTILINE` over the buffer.
- `Parser.dfy` is the loop itself:
  - `Step` is one iteration, `Feed` is the loop and `ParseUart` is the function's result.
  - `ParseUartData` is the imperative loop. It updates `buffer`, `ptat` and `avg_temp` in place and fills a fresh `array2<real>` row by row. Its contract proves it computes `ParseUart`.

Modelling choices:

- The serial port becomes a sequence of decoded `readline()` results. Running out of input stands for `PARSE_TIMEOUT` expiring.
- The buffer is one string, just as in Python. Searches run over the whole text, and grid rows are filtered from the text's `'\n'`-separated lines.
- The `except ValueError` branch cannot be reached: every grid row splits into 32 words that all convert. The dead branch is an `assert false` in `FillPixels`.

## Model

| member | source | states |
|---|---|---|
| Text.Strip | d6t/d6t_32l_01a/Src/visualize.py:25 | `str.strip()`: `lstrip()` then `rstrip()` over the full `str.isspace()` set; `StripSlice`, `StripStripped` and `StripExactly` pin it down |
| Text.Split | d6t/d6t_32l_01a/Src/visualize.py:43 | splitting on one separator character, never empty and keeping empty pieces: it gives the `'\n'`-separated lines that `^` and `$` see under `re.MULTILINE`, and the single-space pieces of the row pattern |
| Text.Words | d6t/d6t_32l_01a/Src/visualize.py:47 | `str.split()` with no argument: every word it returns is non-empty and free of whitespace; `WordsOfJoin` is its round trip |
| Text.StripSlice | d6t/d6t_32l_01a/Src/visualize.py:25 | `strip()` leaves a contiguous slice of the line; everything it removed before and after that slice is whitespace |
| Text.StripStripped | d6t/d6t_32l_01a/Src/visualize.py:25 | the stripped line neither starts nor ends with whitespace |
| Text.StripExactly | d6t/d6t_32l_01a/Src/visualize.py:25 | stripping whitespace-only margins off a stripped text gives exactly that text |
| Text.StripIdempotent | d6t/d6t_32l_01a/Src/visualize.py:25 | stripping twice is stripping once |
| Text.SplitJoin | d6t/d6t_32l_01a/Src/visualize.py:43 | splitting pieces without the separator after joining them gives the pieces back |
| Text.JoinSplit | d6t/d6t_32l_01a/Src/visualize.py:43 | joining the pieces of a split gives the text back |
| Text.WordsOfJoin | d6t/d6t_32l_01a/Src/visualize.py:47 | `split()` on non-empty whitespace-free words joined by single spaces yields those words |
| Decimals.ScanToken | d6t/d6t_32l_01a/Src/visualize.py:32 | the match of `-?\d+\.\d+` at a position, with maximal digit runs; `ScanTokenSound` and `ScanFinds` characterise it |
| Decimals.ParseToken | d6t/d6t_32l_01a/Src/visualize.py:47 | a whole word read as a literal, as `float()` accepts the words of a row; `ParseTokenExactly` states which words succeed |
| Decimals.Value | d6t/d6t_32l_01a/Src/visualize.py:34 | the exact real number a literal denotes, standing for `float()`; `ValueBounds` bounds it |
| Decimals.ScanTokenSound | d6t/d6t_32l_01a/Src/visualize.py:32 | the literal scanner reads a valid literal that spells the scanned text and ends at a maximal digit run |
| Decimals.ParseTokenExactly | d6t/d6t_32l_01a/Src/visualize.py:32 | a string is a decimal token exactly when it is `-?`, digits, `.`, digits: the text of a valid `Decimal` |
| Decimals.ParseFormat | d6t/d6t_32l_01a/Src/visualize.py:47 | reading back the text of a literal gives that literal |
| Decimals.ValueBounds | d6t/d6t_32l_01a/Src/visualize.py:34 | the value of a literal has the integer digits as its whole part, and the fraction adds less than one |
| Patterns.MatchAt | d6t/d6t_32l_01a/Src/visualize.py:32-39 | one attempt of a scalar pattern at a position: the lead, a literal, the trail and the hex digits; `MatchAtExactly` characterises it |
| Patterns.Find | d6t/d6t_32l_01a/Src/visualize.py:32-39 | `re.search(pattern, buffer).group(1)`, or none; `FindFirst` and `FirstMatchFound` prove it is the leftmost match |
| Patterns.MatchAtExactly | d6t/d6t_32l_01a/Src/visualize.py:32-39 | the matcher at a position succeeds with a literal exactly when lead, literal, trail and the hex digits stand there |
| Patterns.MatchUnique | d6t/d6t_32l_01a/Src/visualize.py:32-39 | at most one literal matches at a position, so the captured group is determined |
| Patterns.FindFirst | d6t/d6t_32l_01a/Src/visualize.py:32-39 | `re.search` reports the leftmost match, and reports none exactly when there is no match anywhere |
| Patterns.FirstMatchFound | d6t/d6t_32l_01a/Src/visualize.py:32-39 | the leftmost match is what the search reports |
| Patterns.MatchHasNoLineFeed | d6t/d6t_32l_01a/Src/visualize.py:32-37 | no match covers a line feed |
| Patterns.FindAfterLines | d6t/d6t_32l_01a/Src/visualize.py:29-39 | after appending to whole lines, the search finds the old buffer's first match if it had one, and otherwise the first match in the appended text |
| Patterns.PtatLineFound | d6t/d6t_32l_01a/Src/visualize.py:32-34 | a PTAT line yields its reading for any two PEC hex digits and whatever follows: the PEC is checked for shape only |
| Patterns.AvgLineFound | d6t/d6t_32l_01a/Src/visualize.py:37-39 | an average line yields its reading whatever follows |
| Patterns.NoAvgInPtatLine | d6t/d6t_32l_01a/Src/visualize.py:37 | the average pattern finds nothing in a PTAT line |
| Grid.ParseRow | d6t/d6t_32l_01a/Src/visualize.py:43 | the row pattern on one line: 32 literals separated by single spaces, read off; `ParseRowExactly` characterises it |
| Grid.GridLines | d6t/d6t_32l_01a/Src/visualize.py:43 | `re.findall` of the row pattern with `re.MULTILINE`: the buffer's lines that are rows, in order; `GridLinesExactly` and `GridLinesAfterLines` characterise it |
| Grid.ParseRowExactly | d6t/d6t_32l_01a/Src/visualize.py:43 | a line counts as a grid row exactly when it is 32 valid literals joined by single spaces; the literals read off are those literals |
| Grid.RowWordsConvert | d6t/d6t_32l_01a/Src/visualize.py:47-48 | `split()` of a grid row gives exactly 32 words, all of which convert, back to the row's literals |
| Grid.KeepRowsExactly | d6t/d6t_32l_01a/Src/visualize.py:43 | the kept lines are all rows, and every row among the lines is kept |
| Grid.GridLinesExactly | d6t/d6t_32l_01a/Src/visualize.py:43 | `findall` returns only rows, and every line of the buffer that is a row |
| Grid.GridLinesAfterLines | d6t/d6t_32l_01a/Src/visualize.py:29-43 | after text is appended to whole lines, the rows found are the old rows followed by those of the new text |
| Grid.GridLinesOfLine | d6t/d6t_32l_01a/Src/visualize.py:29-43 | one appended line contributes itself when it is a row, and nothing otherwise |
| UartParser.Step | d6t/d6t_32l_01a/Src/visualize.py:25-59 | one iteration: strip, skip a blank line, append, search, test for a frame, reset on overflow; `StepEmitsWhen`, `StepFrame` and `StepKeepsInv` state what it does |
| UartParser.Feed | d6t/d6t_32l_01a/Src/visualize.py:24-60 | the `while` loop over the lines that arrive before the timeout, stopping at the first frame; `FeedKeepsInv`, `FeedFrame` and `FeedAppend` state what it does |
| UartParser.ParseUart | d6t/d6t_32l_01a/Src/visualize.py:13-62 | the function's result: the first frame, or `None` on timeout; the scenario lemmas below and `ParseUartData` are stated against it |
| UartParser.StepEmitsWhen | d6t/d6t_32l_01a/Src/visualize.py:25-44 | an iteration returns a frame exactly when the stripped line is not blank, each reading is known from before or its pattern matches somewhere in the grown buffer, and the buffer holds at least 32 rows |
| UartParser.StepKeepsInv | d6t/d6t_32l_01a/Src/visualize.py:24-59 | each iteration keeps the buffer at most 10000 characters long and made of whole lines, the readings valid, and the readings equal to the buffer's first matches whenever it has any |
| UartParser.FeedKeepsInv | d6t/d6t_32l_01a/Src/visualize.py:24-59 | the loop keeps that invariant across any number of lines |
| UartParser.StepFrame | d6t/d6t_32l_01a/Src/visualize.py:42-50 | a frame is 32×32; row `i` is the buffer's `i`-th grid line in order; each reading is the buffer's first match, or else the value kept from before |
| UartParser.FeedFrame | d6t/d6t_32l_01a/Src/visualize.py:43-50 | every frame the loop returns is well formed and 32×32 |
| UartParser.ReadingsPersist | d6t/d6t_32l_01a/Src/visualize.py:32-59 | a known reading is never forgotten, not even when the buffer is cleared |
| UartParser.FeedAppend | d6t/d6t_32l_01a/Src/visualize.py:50 | the loop stops at the first frame; later lines are never looked at |
| UartParser.StripOfReadLineClean | d6t/d6t_32l_01a/Src/visualize.py:25 | a non-blank stripped `readline()` result is one non-empty stripped line without a line feed |
| UartParser.StepKeepsWholeLines | d6t/d6t_32l_01a/Src/visualize.py:25-29 | blank lines never enter the buffer; the buffer is always a run of clean lines, each ended by `'\n'` |
| UartParser.FeedQuiet | d6t/d6t_32l_01a/Src/visualize.py:24-59 | while no frame can come out and the buffer stays small, feeding clean lines only appends them and updates the readings |
| UartParser.FrameRoundTrip | d6t/d6t_32l_01a/Src/visualize.py:24-50 | a PTAT line, an average line and 32 rows, sent in that order, come back as exactly that frame, provided the lines before the last fit in 10000 characters |
| UartParser.FrameAfterReadings | d6t/d6t_32l_01a/Src/visualize.py:32-50 | further non-row lines after the readings, later readings among them, change nothing: the frame has the first readings, not the latest, provided the lines before the last fit in 10000 characters |
| UartParser.RowsBeforeReadings | d6t/d6t_32l_01a/Src/visualize.py:42-44 | rows that arrive before the readings still count, provided the lines before the last fit in 10000 characters |
| UartParser.ReadingsSurviveReset | d6t/d6t_32l_01a/Src/visualize.py:57-59 | after a reset, 32 rows alone give a frame with the readings found before the reset, provided the lines before the last fit in 10000 characters |
| UartParser.NoFrameWithoutGrid | d6t/d6t_32l_01a/Src/visualize.py:24-62 | when the lines that arrive offer fewer than 32 grid rows in all, no frame comes out, whatever the readings, the lengths and the buffer resets: the result is `None` |
| UartParser.FewRowsAfterReadings | d6t/d6t_32l_01a/Src/visualize.py:42-62 | a PTAT line, an average line and fewer than 32 rows give `None`, with no bound on their length |
| UartParser.FillRow | d6t/d6t_32l_01a/Src/visualize.py:49 | `pixels[row, :] = row_data` replaces that row and keeps the others |
| UartParser.FillPixels | d6t/d6t_32l_01a/Src/visualize.py:45-50 | for the first 32 grid lines, each is split and converted and stored as a row; afterwards the array holds the value of every literal of the frame |
| UartParser.ParseUartData | d6t/d6t_32l_01a/Src/visualize.py:13-62 | the imperative loop returns `(None, None, None)` exactly when `ParseUart` gives no frame; otherwise it returns the values of the frame's readings and a fresh 32×32 array holding its pixel values |

## Left out

- Serial I/O (`ser.readline()`): it is a call into the pyserial library. The input is the sequence of lines it returns.
- UTF-8 decoding with `errors='ignore'`: the lines are taken as already decoded.
- The wall-clock timeout (`time.time()`, `PARSE_TIMEOUT`): it is non-deterministic. Running out of input lines stands for it.
- UartParser.ParseUartData: it returns the exact real value of each literal. The rounding of `float()` to binary64, including `-0.0`, is not modelled, because floating point is out of scope.
- Decimals.Value: it is exact real arithmetic, for the same reason.
- `\d` matching non-ASCII Unicode digits: the model takes `\d` to be `[0-9]`. The regex engine in general is replaced by recognisers for the three fixed patterns.
- The `print` diagnostics at lines 52, 58 and 61: they are console output only.
- `visualize_heatmap` and the main loop: they are matplotlib rendering and window handling.
