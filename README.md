# Bank-statement upload: format dispatch and PDF line parser

This project models, in Dafny, the two pieces of logic in the upload handler of the
AI finance tracker (`app/main.py`), and proves what they promise.

- **Format dispatch** (`upload`). The uploaded file name is lower-cased. Its suffix then picks the reader:
  `.csv` picks the CSV reader, `.xls` or `.xlsx` the Excel reader, and `.pdf` the PDF parser.
  Any other name is refused with an "unsupported file type" error that names the file.
  Module `Upload`, file `upload.dfy`.
- **PDF parser** (`parse_pdf_to_df`). It works in three steps:
  - The pages' extracted texts are joined. Each non-empty page adds its text and a newline.
  - The joined text is split on newlines. Blank lines are dropped.
  - Each remaining line is split on whitespace. A line with at least three tokens whose last token,
    with commas removed, parses as a number becomes a record `{date, description, amount}`.
    The date is the first token. The description is the middle tokens joined by single spaces.
    Any other line is skipped.

  Module `PdfParse`, file `pdf_parse.dfy`. The page loop and the line loop are methods
  (`JoinPages`, `ParseLines`) with loop invariants. Each is proved equal to a specification function
  (`PageText`, `Records`), and the properties are proved as lemmas about those functions.
- The Python string operations these use are in module `PyStr` (`pystr.dfy`):
  - `str.isspace` (the exact character set of CPython, which `split()` and `strip()` share)
  - `strip()`
  - `split("\n")`
  - `split()` with no argument
  - `" ".join`
  - `replace(",", "")`
  - `lower()`
  - `endswith`

  Each comes with its round-trip or characterising lemmas.
- `Option` and `Result` are in `wrappers.dfy`. Generic facts about sequences used in the proofs are in module `Seqs` (`seqs.dfy`).

Python's `float()` is not modelled. The number parse is a parameter `parse: string -> Option<A>`
(`None` plays the part of the `ValueError`), and `Record<A>` is generic in the amount type. So no
property depends on floating-point semantics. The page texts are an input sequence, because the
PDF text extraction is a library call.

Three behaviours of the code are worth stating outright:
- The code does not discard the first line as a header. `FirstLineNotSkipped` proves that the first
  line yields a record like any other.
- The code removes only commas from the amount token, not currency symbols.
  `RemoveCharKeepsOthers` proves that every other character is passed to the number parse.
- A line is skipped when it has fewer than three tokens, or when its number parse fails. Of the
  errors, only a failed number parse (`ValueError` from `float()`) is caught, and it skips the line.

## Model

| member | source | states |
|---|---|---|
| `Upload.Dispatch` | app/main.py:48-56 | the result is CSV iff the lower-cased name ends in `.csv`, Excel iff it ends in `.xls` or `.xlsx`, PDF iff it ends in `.pdf`, and the unsupported-type error, naming the file as uploaded, iff it ends in none of them |
| `Upload.SuffixesExclusive` | app/main.py:49-53 | the four suffixes end in different letters, so no name matches two branches |
| `Upload.DispatchIgnoresCase` | app/main.py:48-56 | two names that differ only in letter case are dispatched to the same reader |
| `Upload.DispatchOfLower` | app/main.py:48 | dispatching the already lower-cased name gives the same reader as the name itself |
| `Upload.DispatchUpperCase` | app/main.py:48-55 | for any stem, `.CSV`, `.XLS`, `.XLSX` and `.PDF` in upper case are accepted by the matching reader |
| `Upload.DispatchLastSuffixOnly` | app/main.py:49-56 | for any stem, a name ending `.pdf.png` is refused: only the final suffix counts |
| `PyStr.Lower` | app/main.py:48 | lower-casing keeps the length and lower-cases each character in place |
| `PyStr.LowerIdempotent` | app/main.py:48 | lower-casing twice is lower-casing once |
| `PyStr.LowerConcat` | app/main.py:48 | lower-casing distributes over concatenation |
| `PyStr.SpaceChars` | app/main.py:82-86 | space, tab, `\n` and `\r` are whitespace to `split()` and `strip()`; digits, ASCII letters, `,`, `.`, `-` and `/` are not, so they never split a date or amount token |
| `PyStr.LowerChar` | app/main.py:48 | the result is never an upper-case ASCII letter; letters stay letters; a character is either kept or is an upper-case letter moved to its lower-case form |
| `PyStr.EndsWith` | app/main.py:49-53 | `name.endswith(suffix)` holds iff the name is some prefix followed by the suffix |
| `PyStr.TrimStart` | app/main.py:82 | the result is a suffix of the input, and everything removed before it is whitespace; it is empty iff the input is blank, else it starts with a non-space (so the removed prefix is the longest whitespace prefix) |
| `PyStr.TrimEnd` | app/main.py:82 | the result is a prefix of the input, and everything removed after it is whitespace; it is empty iff the input is blank, else it ends with a non-space (so the removed suffix is the longest whitespace suffix) |
| `PyStr.Strip` | app/main.py:82 | `line.strip()` is empty iff the line is blank; otherwise it starts and ends with a non-space |
| `PyStr.JoinStart` | app/main.py:94 | `sep.join(parts)` of one or more parts starts with the first part |
| `PyStr.JoinEnd` | app/main.py:94 | `sep.join(parts)` of one or more parts ends with the last part |
| `PyStr.Split` | app/main.py:82 | `text.split("\n")` has at least one piece |
| `PyStr.SplitPieces` | app/main.py:82 | no piece of a split holds the separator |
| `PyStr.JoinSplit` | app/main.py:82 | joining the pieces with the separator gives the text back |
| `PyStr.SplitJoin` | app/main.py:82 | splitting separator-free pieces that were joined gives the pieces back |
| `PyStr.SplitNoSep` | app/main.py:82 | a text without the separator splits into itself alone |
| `PyStr.SplitConcat` | app/main.py:80-82 | a separator between two texts splits them apart: the pieces of the first, then those of the second |
| `PyStr.SplitCons` | app/main.py:82 | the first character either ends the first piece or joins it |
| `PyStr.WordLength` | app/main.py:86 | the leading run of non-whitespace characters is in range and is maximal |
| `PyStr.Tokens` | app/main.py:86 | every token of `line.split()` is non-empty and holds no whitespace |
| `PyStr.TokensEmpty` | app/main.py:82-87 | `split()` gives no tokens iff the line is blank |
| `PyStr.WordLengthOfPrefix` | app/main.py:86 | a word followed by whitespace or the end is read as one run |
| `PyStr.NonSpace` | app/main.py:86 | the non-whitespace characters of a line: no longer than the line, with no whitespace in it |
| `PyStr.TokensKeepText` | app/main.py:86 | for every line, however spaced (leading, trailing or doubled spaces, tabs), the tokens of `split()` put together are exactly the line's non-whitespace characters in order: none is lost, added or reordered |
| `PyStr.TokensAtSpace` | app/main.py:86 | for all texts `a`, `b` and any whitespace character between them, the tokens of the whole are the tokens of `a` followed by those of `b`: words are never merged across a space, a run of spaces or a tab; with `TokensEmpty` and `TokensOfJoin` this fixes `split()` on every line |
| `PyStr.TokensOfJoin` | app/main.py:86-94 | splitting words joined by single spaces gives the words back |
| `PyStr.JoinSingleSpaced` | app/main.py:94 | one or more words joined by `" "` give a non-empty text with no space at either end, where every whitespace is a single `' '` between words |
| `PyStr.RemoveChar` | app/main.py:89 | `replace(",", "")` leaves no comma and does not lengthen the text |
| `PyStr.RemoveCharKeepsOthers` | app/main.py:89 | every character other than the comma is kept as often as it occurs (currency symbols are not removed) |
| `PyStr.RemoveCharConcat` | app/main.py:89 | removal works piece by piece, so the kept characters keep their order |
| `PyStr.RemoveCharAbsent` | app/main.py:89 | a token without commas is passed on unchanged |
| `PdfParse.PageChunk` | app/main.py:78-80 | a page adds nothing exactly when its text is empty; otherwise what it adds ends with a newline |
| `PdfParse.PageText` | app/main.py:76-80 | the joined text is empty or ends with a newline |
| `PdfParse.JoinPages` | app/main.py:76-80 | the page loop builds exactly `PageText` of the page texts |
| `PdfParse.PageTextConcat` | app/main.py:76-80 | the text of two runs of pages is the text of the first followed by that of the second, in page order |
| `PdfParse.PageTextSnoc` | app/main.py:77-80 | one more page appends what that page adds |
| `PdfParse.EmptyPageAddsNothing` | app/main.py:79 | an empty page contributes nothing, wherever it stands |
| `PdfParse.NonEmptyPageAddsLine` | app/main.py:79-80 | a non-empty page contributes its text followed by one newline |
| `PdfParse.KeepContent` | app/main.py:82 | the filter never lengthens the list of lines |
| `PdfParse.KeepContentMembers` | app/main.py:82 | the filter keeps exactly the lines that are not blank |
| `PdfParse.KeepContentCons` | app/main.py:82 | one step of the filter: the first line is kept iff its `strip()` is non-empty |
| `PdfParse.KeepContentConcat` | app/main.py:82 | the filter preserves order: filtering two runs of lines is filtering each |
| `PdfParse.KeepContentEmptyLast` | app/main.py:80-82 | the empty piece after the final newline is never handed on |
| `PdfParse.ContentLines` | app/main.py:82 | at most one line is handed on per newline-separated piece of the text |
| `PdfParse.ContentLinesMembers` | app/main.py:82 | the lines handed to the record parser are exactly the non-blank pieces of the text; each has a non-whitespace character and none holds a newline |
| `PdfParse.ContentLinesOfEmpty` | app/main.py:82 | the empty text has no line |
| `PdfParse.ContentLinesNewlineEnd` | app/main.py:80-82 | the newline added after a page adds no line |
| `PdfParse.ContentLinesAfterBreak` | app/main.py:80-82 | a text that is empty or ends in a newline shares no line with what follows it |
| `PdfParse.ContentLinesOfChunk` | app/main.py:79-82 | what one page adds to the text holds exactly that page's own lines |
| `PdfParse.ContentLinesOfNextPage` | app/main.py:76-82 | the lines of the joined text are the pages' own non-blank lines, page after page; page boundaries never merge lines |
| `PdfParse.ContentLinesOfOnePage` | app/main.py:76-82 | a one-page statement has exactly that page's lines |
| `PdfParse.ContentLinesOfOneLine` | app/main.py:82 | a non-blank line without a newline is handed on as it is |
| `PdfParse.LineRecord` | app/main.py:86-95 | a line that yields a record is not blank, and the record's date is one whitespace-free token |
| `PdfParse.LineRecordAccepted` | app/main.py:86-93 | a line yields a record iff it has at least 3 tokens and its last token, commas removed, parses |
| `PdfParse.LineRecordDate` | app/main.py:86-88 | a record's line has at least 3 tokens, and its date is the line's first token, a whitespace-free word |
| `PdfParse.LineRecordDescription` | app/main.py:94 | the description re-splits into exactly the tokens strictly between the first and last; it is single-spaced (non-empty, no leading, trailing or doubled space); date, description and last token account for every token |
| `PdfParse.LineRecordAmount` | app/main.py:89-91 | the amount is the parse of the last token with every comma removed, and the parsed text holds no comma |
| `PdfParse.BlankLineYieldsNothing` | app/main.py:82-87 | an empty or whitespace-only line never yields a record |
| `PdfParse.Records` | app/main.py:84-95 | the line loop yields at most one record per line |
| `PdfParse.RecordsStep` | app/main.py:85-95 | one more line appends its record, or nothing when it is skipped |
| `PdfParse.ParseLines` | app/main.py:84-95 | the line loop, with its `continue` on a failed parse, builds exactly `Records` of the lines |
| `PdfParse.RecordsConcat` | app/main.py:84-95 | lines are handled independently: the records of two runs of lines are those of each, in order |
| `PdfParse.RecordLinesOrdered` | app/main.py:85-95 | the positions of the record-yielding lines are in range and strictly increasing |
| `PdfParse.RecordLinesExact` | app/main.py:85-95 | the positions are exactly the lines that yield a record; every other line is skipped without error |
| `PdfParse.RecordsOrigin` | app/main.py:84-95 | there is one record per accepted line, and the k-th record is what the k-th accepted line yields (order preserved) |
| `PdfParse.PdfRecords` | app/main.py:76-95 | the parser returns at most one record per non-blank line of the joined text |
| `PdfParse.ParsePdf` | app/main.py:76-95 | the whole parser returns the records of the non-blank lines of the joined page text |
| `PdfParse.PdfRecordsOfNextPage` | app/main.py:76-95 | one more page appends the records of its own lines after those of the earlier pages |
| `PdfParse.FirstLineRecord` | app/main.py:84-95 | for any lines, a first line that yields a record gives the first record |
| `PdfParse.FirstLineNotSkipped` | app/main.py:82-95 | when the first non-blank line yields a record, that record is the first one returned: no header line is dropped |

## Left out

- `pd.read_csv`, `pd.read_excel` and the `DataFrame` construction (app/main.py:50, 52, 96) are library calls. Dispatch returns which reader is chosen, and the PDF parser returns the records as a sequence.
- Python's `float()` (app/main.py:91) is not modelled. It is the parameter `parse`, so no property depends on floating-point semantics or on which texts `float()` accepts.
- PyPDF2's `PdfReader`/`extract_text` and the `ImportError` path (app/main.py:69-78) are library calls. The page texts are an input. A page whose extraction gives `None` is represented by the empty string, which `if page_text:` treats the same way.
- `PyStr.LowerChar`: the per-character part of `PyStr.Lower`; only A–Z are mapped, for the reason given in the next line.
- `PyStr.Lower`: only the ASCII letters A–Z are lower-cased, not Python's full Unicode case mapping. Dispatch is unaffected: the four suffixes are ASCII, and the only non-ASCII characters whose lower case contains an ASCII letter are U+0130 (to `i` plus a combining dot) and U+212A (to `k`), and neither `i` nor `k` occurs in a suffix. So a name ends in a suffix after Python's `lower()` exactly when it does after `Lower`.
- Saving the raw upload under `bank_statements/` (app/main.py:41-47) is file-system I/O and is not modelled.
- The FastAPI endpoints and the response (app/main.py:29-38, 59-62) are transport glue and are not modelled.
- Neo4j driver setup and `send_df_to_neo4j` (app/main.py:11-25, 98-117) are network and database I/O and are not modelled.
- app/data/schemas.py declares data only. It informs the record shape `{date, description, amount}`.
- The frontend files under app/frontend are user interface and styling, with no parsing logic.
- Categorisation, column inference, batch summaries and graph derivation are not part of this model: no code for them is among the modelled files.
