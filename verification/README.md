# automation-tools: extractor normalisation and password generation

This project models the two pieces of deterministic logic in the
automation-tools scripts and proves properties about them.

* **PDF-to-CSV extractor** (`pdf_extractor.py`). An opened document is
  represented as a sequence of pages. Each page holds what pdfplumber reports
  for it: a list of raw tables (rows of optional text cells) and an optional
  text blob.
  * `extract_from_pdf` keeps the non-empty tables and the non-empty texts, in
    page order.
  * `clean_and_convert` takes the first table, promotes its first row to the
    header and cleans the body: each cell is stripped, and a blank becomes
    missing.
  * When there is no table, `clean_and_convert` splits the first text into
    lines and whitespace-separated tokens.
  * The save handler appends `.csv` to the chosen path unless the path
    already ends with it.
* **Password generator** (`password.py`).
  * A prompt loop accepts the first length between 10 and 32.
  * Three y/n questions choose the optional character classes.
  * The pool is lowercase, then uppercase, digits and symbols as chosen, in
    that order.
  * The password is built from `length` random choices out of that pool.

Modules:

* `Wrappers`: `Option`.
* `Text`: Python's `str.strip()`, `str.split()` and `str.split('\n')`.
* `Extractor`: pages and `extract_from_pdf`.
* `Convert`: the DataFrame model and `clean_and_convert`.
* `Export`: the output-path rule.
* `Scenarios`: two worked examples.
* `PasswordGen`: the password script.

A pandas DataFrame is modelled as column labels plus rows of optional
strings. pandas' `NA` and `NaN` and Python's `None` are all `None`. The
labels are either a promoted header row or pandas' default positional labels.
pandas pads short rows with missing cells when it builds a frame, and the
model does the same. Whitespace is Python's `str.isspace()` set, written out
character by character.

Three behaviours of the extractor's code worth noting:

* The fallback uses the first non-empty text in page order. That is not
  necessarily the text of page 1.
* The header row is not stripped. Only body cells are cleaned.
* A short row is padded with missing cells by `pd.DataFrame`. It does not
  keep its natural length. In particular, text `x y` / `z` gives the rows
  `[x, y]` and `[z, missing]`.

## Model

| member | source | states |
|---|---|---|
| Extractor.ExtractFromPdf | pdf_extractor.py:12-31 | the page loop and its inner table loop collect exactly the reference filters `Extractor.Tables` and `Extractor.Texts`, characterised by the lemmas below |
| Extractor.AppendKeptTables | pdf_extractor.py:20-24 | the inner loop appends exactly the page's non-empty tables, in position order |
| Extractor.KeptTables | pdf_extractor.py:20-24 | a page contributes exactly its non-empty tables, never more than it has |
| Extractor.KeptTablesAppend | pdf_extractor.py:22-24 | keeping non-empty tables distributes over concatenation, so position order is preserved |
| Extractor.TablesContents | pdf_extractor.py:17-24 | a table is collected iff it is non-empty and occurs on some page |
| Extractor.TextsContents | pdf_extractor.py:26-29 | a text is collected iff it is non-empty and is some page's text; at most one per page |
| Extractor.TablesAppend | pdf_extractor.py:18-24 | tables are ordered by page: extracting two page runs concatenates their tables |
| Extractor.TextsAppend | pdf_extractor.py:18-29 | texts are ordered by page: extracting two page runs concatenates their texts |
| Extractor.FirstKeptTable | pdf_extractor.py:22-24 | the first kept table of a page is its first non-empty one |
| Extractor.FirstTable | pdf_extractor.py:18-24 | `tables[0]` is the first non-empty table of the first page that has one |
| Extractor.FirstText | pdf_extractor.py:26-29 | `text_data[0]` is the text of the first page with non-empty text, not necessarily page 1 |
| Extractor.TablesEmptyIff | pdf_extractor.py:20-24 | the table list is empty iff no page has a non-empty table |
| Extractor.TextsEmptyIff | pdf_extractor.py:27-29 | the text list is empty iff no page has non-empty text |
| Text.Strip | pdf_extractor.py:46 | `strip()` yields a slice of the input that neither starts nor ends with whitespace, with only whitespace cut on either side |
| Text.StripUnique | pdf_extractor.py:46 | `strip()` of whitespace + trimmed core + whitespace is exactly the core |
| Text.StripIdempotent | pdf_extractor.py:46 | stripping twice equals stripping once |
| Text.StripEmptyIff | pdf_extractor.py:53 | `line.strip()` is falsy iff the line is all whitespace |
| Text.Tokens | pdf_extractor.py:53 | every token of `split()` is non-empty and free of whitespace |
| Text.ConcatTokens | pdf_extractor.py:53 | concatenating the tokens of a line gives the line with all whitespace removed |
| Text.TokensEmptyIff | pdf_extractor.py:53 | `split()` is empty iff the line is all whitespace |
| Text.TokensOfJoinWords | pdf_extractor.py:53 | splitting valid tokens joined by spaces gives back the same tokens |
| Text.TokensSkipSpace | pdf_extractor.py:53 | leading whitespace of any length contributes no token |
| Text.TokensOfSpaced | pdf_extractor.py:53 | `split()` splits on runs of whitespace: valid tokens separated by non-empty whitespace runs, with any whitespace before and after, split back into exactly those tokens |
| Text.Lines | pdf_extractor.py:52 | `split('\n')` yields at least one piece and no piece contains a newline |
| Text.JoinLinesOfLines | pdf_extractor.py:52 | joining the pieces with newlines restores the text |
| Text.LinesOfJoinLines | pdf_extractor.py:52 | splitting newline-free pieces joined by newlines gives the pieces back |
| Convert.Width | pdf_extractor.py:37 | the frame is as wide as its longest row |
| Convert.Pad | pdf_extractor.py:37 | a short row is extended to the frame width with missing cells, its own cells unchanged |
| Convert.CleanCell | pdf_extractor.py:46-47 | a cleaned cell is missing iff it was missing or all whitespace; otherwise it is the non-empty trimmed core of the original |
| Convert.CleanRow | pdf_extractor.py:46-47 | cleaning works cell by cell and keeps the row length |
| Convert.CleanCellIdempotent | pdf_extractor.py:46-47 | cleaning a cell twice equals cleaning it once |
| Convert.CleanRowIdempotent | pdf_extractor.py:46-47 | cleaning a row twice equals cleaning it once |
| Convert.TableFrame | pdf_extractor.py:35-48 | an empty table gives an empty frame. Otherwise: the header is the first row, padded and unstripped, and verbatim for a rectangular table; there are `len(table) - 1` body rows, all of the table's width; body cell (k, j) is the cleaned cell of row k+1, or missing past that row's end |
| Convert.TableBodyClean | pdf_extractor.py:46-47 | every body row of a table frame is a fixed point of cleaning |
| Convert.NonBlank | pdf_extractor.py:53 | a line is kept iff it occurs in the input and is not all whitespace |
| Convert.NonBlankAppend | pdf_extractor.py:53 | keeping non-blank lines preserves their order |
| Convert.TokenRows | pdf_extractor.py:53 | no fallback row is empty, and no token is empty or contains whitespace |
| Convert.TokenRowsOfNonBlank | pdf_extractor.py:52-53 | there is one row per non-blank line, in order; row k holds the tokens of the k-th non-blank line, and they concatenate to that line without whitespace |
| Convert.TokenFrame | pdf_extractor.py:54 | `pd.DataFrame` of token rows has positional labels and one row per token list, all as wide as the longest; cell (k, j) is token j of row k, or missing past the row's tokens |
| Convert.FallbackRows | pdf_extractor.py:52-54 | the fallback frame `Convert.FallbackFrame` has one row per non-blank line, each row starts with a present token, and its tokens spell the line without whitespace |
| Convert.CleanAndConvert | pdf_extractor.py:33-56 | the result is absent iff both lists are empty; only `tables[0]` is used when there is a table; otherwise only `text_data[0]` |
| Convert.ExtractThenConvert | pdf_extractor.py:12-56 | after extraction, the result is absent iff no page has a non-empty table or text; otherwise it comes from the first table in page order, or failing that from the first page with text |
| Scenarios.ScenarioTable | pdf_extractor.py:35-48 | `[[Name, Age], [Ann, 30], [Bo, " "]]` gives header `Name, Age` and body `[Ann, 30]`, `[Bo, missing]` |
| Scenarios.ScenarioText | pdf_extractor.py:50-54 | text `x y` newline `z` gives rows `[x, y]` and `[z, missing]` under labels 0 and 1 |
| Export.CsvPath | pdf_extractor.py:127-128 | the output path always ends in `.csv`; it keeps the chosen path as a prefix; it equals the chosen path iff that path already ends in `.csv`, and otherwise adds just the suffix |
| Export.CsvPathIdempotent | pdf_extractor.py:127-128 | applying the suffix rule twice equals applying it once |
| Export.SaveTarget | pdf_extractor.py:124-130 | a file is written iff a path was chosen and data was extracted, and it is written to the `.csv` path |
| PasswordGen.FirstAccepted | password.py:5-13 | the loop stops at the first length with `10 <= n <= 32`, after rejecting every earlier answer; it never stops if no answer passes |
| PasswordGen.ReadChoices | password.py:5-21 | the length kept is the first accepted answer, so it is in bounds; each class is chosen iff its answer lower-cases to `y` |
| PasswordGen.RejectedLengthReprompts | password.py:8-13 | a rejected length re-prompts and changes no choice |
| PasswordGen.Pool | password.py:25-39 | the pool is 26 lowercase letters, then uppercase, digits and symbols in that order, each only if chosen; a character is in the pool iff it is in lowercase or in a chosen class |
| PasswordGen.PoolNonEmpty | password.py:41-43 | the pool is never empty, so the `exit()` branch is dead |
| PasswordGen.BuildPassword | password.py:47-51 | the password has exactly the requested length; character i is the pool entry at the i-th draw; every character is in the pool |
| PasswordGen.EveryPasswordReachable | password.py:49-51 | every string over the pool can be drawn, so pool membership is all that is promised |
| PasswordGen.ChosenClassMayBeAbsent | password.py:49-51 | a chosen class need not appear: the password `aaa…` can be drawn whatever classes were chosen |
| PasswordGen.Generate | password.py:5-53 | the script yields a password iff some length answer is accepted. The password's length is the first accepted answer; every character is in the pool of the chosen classes; with no class chosen, every character is lowercase |

## Left out

- pdfplumber: opening, closing, `extract_tables` and `extract_text`. The document is the input sequence of pages.
- The flet user interface, pdf_extractor.py:58-202: pickers, buttons, status and preview text, and the `df.empty` check in the extract handler. Only the path rule and the guard of the save handler are modelled.
- `DataFrame.to_csv`: quoting, serialisation and file writing are I/O.
- pandas dtype dispatch in `df.apply`. The model assumes pandas before 3.0: there every column of strings or `None` has object dtype, so it is always stripped.
- pandas 3.0 and later: string columns get the dedicated `str` dtype. The `x.dtype == "object"` test then fails, and no body cell is stripped. A `" "` cell stays `" "` instead of becoming missing. This behaviour is not modelled.
- The distinction between pandas `NA`, `NaN` and `None`. All are `None`.
- Applying the cleaning to a frame with duplicate header labels. Cleaning is modelled cell by cell.
- Text.IsSpace: the set of whitespace characters is written out from Python's `str.isspace()`. It is fixed rather than derived from the Unicode database.
- PasswordGen.IsYes: `.lower() == "y"` is modelled as the answer being `y` or `Y`. No other string lower-cases to `y`.
- PasswordGen.FirstAccepted: the script loops forever, or fails at end of input, when no answer is accepted. The model returns None instead.
- `int(input())` parsing failures, console printing and `exit()`.
- The distribution of `random.choice`. The i-th draw is an arbitrary number, reduced modulo the pool size.
- host_checker.py: TCP connection checks are network I/O.
