# MealMaster block extractor of AnyMeal, in Dafny

AnyMeal imports recipe files in the MealMaster text format. Before any
recipe is parsed, `recipes(istream&)` in `partition.cpp` cuts the raw text
into the part that belongs to recipes. It reads the stream line by line and
drops one trailing carriage return from each line. A header line (starting
with `MMMMM` and longer than five characters) switches capture on. A
terminator line (exactly `MMMMM`) switches it off, after it has been
written if capture was on. Every line read while capture is on goes into
one buffer, followed by `"\r\n"`. At the end the buffer is returned as the only element of the
result vector, unless it is empty.

The buffer is declared once, never cleared, and pushed once after the loop.
So the function returns at most one string, holding every captured block
back to back. The import loop in `anymeal/main_window.cc` iterates over the
result as if it held one string per recipe. The model keeps the code's
behaviour: it does not split per recipe.

The project has two modules:

- `LineReader` (`line_reader.dfy`): the input stream as a string and
  `std::getline` on it. `Lines` is the sequence of lines getline yields.
  The text is split at each `'\n'`, a last segment without `'\n'` is still
  a line, and a `'\n'` at the very end adds no empty line. `GetLine` is the
  imperative read step, proved against `Lines`. `Unlines` is its inverse,
  with round trips in both directions.
- `Partition` (`partition.dfy`): the scanner. `StripCr`, `IsHeader`,
  `IsTerminator`, `Capturing`, `NextFlag` and `Emit` are the per-line
  tests and transitions. `Captured` is the reference definition of the
  buffer, a recursion over the lines and the flag, and `Blocks` is the
  returned vector. `Recipes` is the loop of the source, with its `on` flag
  and growing buffer, proved equal to `Blocks(Lines(stream))`. The lemmas
  state the properties of the scan.

## Model

| member | source | states |
|---|---|---|
| LineReader.LineEnd | partition.cpp:12 | the end of the current line is the first `'\n'` at or after the position, or the end of the stream, and no `'\n'` comes before it |
| LineReader.GetLine | partition.cpp:12 | getline fails exactly when the stream is exhausted; otherwise it yields the next line without its `'\n'`, moves forward, and the lines still to come are the rest of `Lines` |
| LineReader.LinesHaveNoNewline | partition.cpp:12 | no line getline yields contains `'\n'` |
| LineReader.UnlinesLines | partition.cpp:12 | joining the lines back with `'\n'` gives the stream again, plus a `'\n'` when the stream did not end with one |
| LineReader.LinesUnlines | partition.cpp:12 | splitting lines that were joined with `'\n'` gives back exactly those lines |
| Partition.StripCr | partition.cpp:13-14 | the result is the line or the line minus its last character, and it is shorter exactly when the line ends with `'\r'` |
| Partition.StripCrOnce | partition.cpp:13-14 | one trailing `'\r'` is removed and no more |
| Partition.TerminatorWithCarriageReturns | partition.cpp:13-20 | `MMMMM\r` counts as a terminator and not a header; `MMMMM\r\r` is a header and not a terminator |
| Partition.Capturing | partition.cpp:15-17 | a header line is always written; any other line is written exactly when capture was already on |
| Partition.NextFlag | partition.cpp:15-20 | after a terminator capture is off, after a header it is on, and after any other line it keeps its previous value |
| Partition.Emit | partition.cpp:17-18 | a line adds nothing when it is not captured, and otherwise adds itself followed by `"\r\n"` |
| Partition.Recipes | partition.cpp:7-25 | the loop returns exactly `Blocks(Lines(stream))`, the reference scan of the stream's lines from capture off |
| Partition.ScanStep | partition.cpp:12-21 | one pass of the loop body keeps "buffer so far + scan of the rest = scan of the whole input" |
| Partition.FlagAfterAppend | partition.cpp:11-21 | the flag after a + b is the flag after b started from the flag after a |
| Partition.CapturedAppend | partition.cpp:11-21 | the output for a + b is the output for a followed by the output for b started from the flag a leaves; the scan depends on the past only through the flag |
| Partition.CapturedEmptyIff | partition.cpp:11-22 | the buffer is empty exactly when no line, after stripping, is a header |
| Partition.BlocksShape | partition.cpp:9-24 | the result has at most one element, it is empty exactly when no line is a header, and its one element is the whole buffer |
| Partition.EmitLineEndings | partition.cpp:17-18 | a written line ends with `"\r\n"` and every `'\n'` in it follows a `'\r'` |
| Partition.CapturedLineEndings | partition.cpp:12-18 | for lines without `'\n'`, the buffer is empty or ends with `"\r\n"`, and every `'\n'` in it follows a `'\r'` |
| Partition.RecipesLineEndings | partition.cpp:12-23 | every string returned for a stream ends with `"\r\n"` and has a `'\r'` before each `'\n'` |
| Partition.JoinedIsSelectedAll | partition.cpp:17-18 | writing every line is the span selection with every line selected |
| Partition.CaptureUntilTerminator | partition.cpp:15-18 | while capturing, lines without a terminator are all written in order, header-like ones included, and capture stays on; so a block with no terminator is kept through the end of input |
| Partition.TerminatorEndsSpan | partition.cpp:17-20 | a terminator read while capturing is written as `MMMMM\r\n`, and capture is off for the lines after it |
| Partition.SkipUntilHeader | partition.cpp:11-20 | while not capturing, lines with no header among them are dropped and capture stays off; this covers lines before the first header, lines after a terminator, and a bare `MMMMM` |
| Partition.BareTerminatorDropped | partition.cpp:15-20 | a bare `MMMMM` read while not capturing is neither written nor starts capture |
| Partition.FlagIsOpenSpan | partition.cpp:11-21 | after the first i lines the flag is on exactly when some earlier line is a header and no line from it up to i is a terminator |
| Partition.ScanAt | partition.cpp:15-18 | line i is written exactly when it lies in a header..terminator span |
| Partition.CapturedFrom | partition.cpp:12-21 | the scan from line i on writes exactly the span lines from i on, in order |
| Partition.CapturedIsSpans | partition.cpp:7-21 | the buffer is exactly the lines lying in header..terminator spans, stripped, each followed by `"\r\n"`, in input order |

## Left out

- The stream is its whole content as a string. Read errors other than end of input, and the `istream` state flags, are not modelled.
- `ostringstream` and `vector<string>` are modelled as a string and a sequence of strings; their memory management is not modelled.
- Characters are Dafny `char`s. The bytes are not re-encoded; the charset recoder is applied after this step and is not part of this model.
- `partition.hpp` is not part of this model.
- The MealMaster field parser, the charset recoder and the HTML renderer are only included or called from `anymeal/main_window.cc`. Their sources are not part of this model.
- The database layer (`anymeal/database.cc`, `anymeal/database.hh`, `tests/test_database.cc`) is a wrapper around SQLite queries and is not modelled.
- The Qt user interface (`anymeal/main_window.cc`, `anymeal/category_picker.cc`) and the translation tables are not modelled.
