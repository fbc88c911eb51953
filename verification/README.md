# Form 26AS text-to-table converter, modelled in Dafny

`text2table_ui.py` turns the `^`-delimited text export of an Indian
Form 26AS tax-credit statement into a table. This project models the
conversion behind its upload handler. The handler runs four passes over
the decoded text:

1. `add_empty_line` (module `Normalizer`). After every line that equals the
   per-deductor summary header once both are stripped, it writes one blank
   line.
2. `add_line_breaker_to_content` (module `Sections`).
   - It keeps the text before the first `^PART-I - Details of Tax Deducted at Source^`
     marker, and the marker itself.
   - It replaces everything after the marker with the stripped lines of the
     text between the first and second marker.
   - It adds a one-space line after the first line that contains `Sr. No.`.
   - It raises "Expected header not found" when the marker is missing.
3. `read_data_from_content` (module `Extractor`).
   - It splits Part I at each `"\n\n"`, that is at an empty line. A line
     holding only spaces, or only a `'\r'`, does not end a block, and the
     rows behind it go to the previous deductor. This includes the
     one-space breaker line of step 2 and every empty line of an upload with
     CRLF line ends.
   - The first line of a block supplies the block's three deductor identity
     fields. When that line starts with `^`, the `Deductor Number` is empty.
   - The first cleaned field list that has `Sr. No.` as an element becomes
     the header.
   - Each later line that has a digit-only first field and as many fields
     as the header becomes a record: the identity fields followed by the
     line's fields.
   - With no header it raises "Header not found".
   - A block's first line is never read as the header, even when it names
     `Sr. No.`. In the statement's layout the summary header is the first
     line of Part I, so it opens the first block, and the blank line
     inserted after it ends that block. So an upload whose only `Sr. No.`
     line is that summary header fails with "Header not found".
4. `create_dataframe` and the column rewrite at lines 113-116 (module
   `Assembler`).
   - It builds the data frame.
   - It coerces the three amount columns to numbers. When the header repeats
     one of those labels, `df[col]` selects several columns at once, and
     `pd.to_numeric` raises a `TypeError`.
   - It drops `Deductor Number` and `Sr. No.` (ignoring absent labels), and
     inserts a fresh `Sr. No.` column numbered 1..N in front.

The other modules are:

- `PyText` models the Python string operations involved: `split`, `join`,
  `strip`, `isdigit`, substring `in` and `startswith`.
- `Layout` holds the literals and the error kinds.
- `Wrappers` holds `Option` and `Result`.
- `Pipeline` composes the four passes as `Convert`.

Each pass is paired with an independent description, and lemmas connect
the two:

- The normalizer's output is described by the lines it should have.
- The section rewrite is described by how the rebuilt text splits back on
  the marker and on `'\n'`.
- The extractor's nested loops are a fold. A reference definition states
  the result directly: the candidate lines in document order, the first
  one naming `Sr. No.` as header, and the record lines after it.
  `ReadDataMatchesReference` proves that the two agree on every input.

## Model

| member | source | states |
|---|---|---|
| PyText.Split | text2table_ui.py:7 | `str.split` always returns at least one piece. Joining the pieces with the separator gives the input back. There is a second piece exactly when the separator occurs in the input. |
| PyText.SplitPiecesFree | text2table_ui.py:25 | No piece returned by `split` contains the separator. |
| PyText.SplitJoinChar | text2table_ui.py:38 | Joining lines with `'\n'` and splitting on `'\n'` gives the same lines back, provided no line holds a newline. |
| PyText.PiecesWithout | text2table_ui.py:43 | A text absent from a string is absent from every piece of its split. |
| PyText.StripMeaning | text2table_ui.py:9 | `strip()` returns a contiguous part of its input with only whitespace cut away on each side. The result is empty exactly when the input is all whitespace. |
| PyText.StripEnds | text2table_ui.py:25 | The result of `strip()` is no longer than its input and neither begins nor ends with whitespace. |
| PyText.PaddedSection | text2table_ui.py:22 | Inserting empty lines anywhere adds no single-line text to, and removes none from, the text between the first and second occurrence of a single-line separator. |
| PyText.StripIdempotent | text2table_ui.py:66 | Stripping an already stripped field changes nothing. |
| Normalizer.Marks | text2table_ui.py:9 | A line is marked exactly when its stripped form equals the stripped target line. |
| Normalizer.AddEmptyLine | text2table_ui.py:5-11 | The output splits into the input's lines, in order, with one empty line after each matching line and a final empty piece. The output has one character more per matching line, plus one. With no match it is the input followed by `'\n'`. |
| Normalizer.NoTargetsNoBlanks | text2table_ui.py:9-10 | With no matching line, no blank line is inserted. |
| Normalizer.BlankLinesKeepOccurrences | text2table_ui.py:10 | Inserting empty lines neither adds nor removes any line holding a given non-empty text. |
| Normalizer.AddEmptyLineKeepsOccurrences | text2table_ui.py:5-11 | A text without a newline occurs in the output exactly when it occurs in the input. So the pass cannot create or destroy the Part I marker. |
| Normalizer.SpreadIsPadded | text2table_ui.py:7-10 | The written lines are the input lines, in order, with only empty lines inserted. |
| Normalizer.AddEmptyLineKeepsSection | text2table_ui.py:5-11 | A text without a newline occurs between the first and second Part I marker of the output exactly when it occurs there in the input. |
| Sections.FirstWith | text2table_ui.py:29-30 | It returns the index of the first line containing the key. It returns none exactly when no line contains the key. |
| Sections.InsertAfterFirst | text2table_ui.py:26-35 | The loop with its `header_found` flag inserts the breaker right after the first line containing the key. It leaves every other line in place, and inserts nothing when no line contains the key or the flag is already set. |
| Sections.SectionLines | text2table_ui.py:21-25 | The lines of the stripped text between the first and second marker: at least one, none holding a newline. |
| Sections.AddLineBreaker | text2table_ui.py:13-39 | It fails with "Expected header not found" exactly when the marker is absent. Otherwise the result starts with the text before the first marker and the marker. The rest splits on `'\n'` into the section's lines, with the breaker after the first `Sr. No.` line. |
| Sections.BodyLines | text2table_ui.py:38 | The `'\n'`-joined rebuilt section splits back into exactly the modified lines. |
| Sections.BreakerKeepsOccurrences | text2table_ui.py:29-35 | Inserting the one-space breaker neither adds nor removes any line holding a text longer than one character. |
| Sections.RebuiltHasOneMarker | text2table_ui.py:15-38 | The rebuilt text holds the marker exactly once. Splitting it on the marker gives the original text before the first marker, then the rebuilt section. Text after a second marker is gone. |
| Sections.SectionKeepsOut | text2table_ui.py:22-38 | Rewriting the section introduces no single-line text, longer than the breaker, that the original section lacked. |
| Extractor.CleanFields | text2table_ui.py:66 | At most as many fields come out as went in, and every field that comes out is stripped and non-empty. |
| Extractor.CleanFieldSingle | text2table_ui.py:66 | One raw field yields its stripped form, or nothing when it is blank. |
| Extractor.CleanFieldsAppend | text2table_ui.py:66 | Cleaning two runs of fields is cleaning each run and concatenating, so the order of the fields is kept. |
| Extractor.CleanFieldOrigin | text2table_ui.py:66 | Every cleaned field is the stripped form of one of the raw fields. |
| Extractor.CleanFieldKept | text2table_ui.py:66 | Every raw field that is not blank appears, stripped, among the cleaned fields. |
| Extractor.FieldInLine | text2table_ui.py:66-67 | A line that has `t` among its cleaned fields contains `t` as a substring. |
| Extractor.EmptyDeductorNumber | text2table_ui.py:53-57 | The `Deductor Number` of an identified block is empty exactly when the block's first line starts with `^`. |
| Extractor.BlockLines | text2table_ui.py:49-51 | A block always has at least one line, so the `if not lines` guard never fires. |
| Extractor.Identity | text2table_ui.py:53-59 | A block's identity, when it has one, is exactly three fields, one per identity column. |
| Extractor.LineCandidates | text2table_ui.py:61-66 | Every non-blank line after a block's first line carries that block's identity. |
| Extractor.BlockCandidates | text2table_ui.py:53-66 | A block's candidate lines all carry the block's identity and consist of clean fields. |
| Extractor.Candidates | text2table_ui.py:48-66 | Every candidate line is well formed and carries the identity of some block. |
| Extractor.Step | text2table_ui.py:67-70 | Once a header is held it is kept. Before that, no record is added. At most one record is appended per line, and an appended record is the identity followed by the line's fields. |
| Extractor.HeaderIndex | text2table_ui.py:67-68 | It returns the first candidate with `Sr. No.` as an element. It returns none exactly when no candidate has it. |
| Extractor.Emitted | text2table_ui.py:69-70 | Every record is the identity followed by the fields of a candidate that passes the record test. There are no more records than candidates. |
| Extractor.ReadData | text2table_ui.py:41-76 | It raises an `IndexError` exactly when the marker is absent, and otherwise can only fail with "Header not found". On success the header starts with the three identity names and names `Sr. No.` after them. Every record is as long as the header, has a digit-only first field after the identity, and has clean fields. |
| Extractor.ReadDataAsReference | text2table_ui.py:43-70 | The nested loops end in the reference state. The header is the first candidate naming `Sr. No.`, and the records are the record lines after it, in document order. |
| Extractor.ReadDataMatchesReference | text2table_ui.py:41-76 | `read_data_from_content` equals the reference definition on every input. |
| Extractor.FoldAppend | text2table_ui.py:48-70 | Processing two runs of lines is processing the first, then the second. |
| Extractor.FoldAfterHeader | text2table_ui.py:67-70 | Once a header is held it is never replaced. Records are only appended, one per record line, in order. |
| Extractor.FoldFromStart | text2table_ui.py:45-70 | From `header = None` and no records, the loop body reaches the reference state. |
| Extractor.ExpectedShape | text2table_ui.py:66-70 | The reference header names `Sr. No.`. Every reference record has the record shape under the full header. |
| Extractor.IdentifiedBlocks | text2table_ui.py:53-55 | The kept blocks are exactly the blocks whose first line has at least three `^`-fields. |
| Extractor.UnidentifiedBlocksIgnored | text2table_ui.py:53-55 | Blocks whose first line has fewer than three fields change nothing. |
| Extractor.ScanBlocksAppend | text2table_ui.py:48 | Blocks are processed strictly in order. |
| Extractor.HeaderNeverReplaced | text2table_ui.py:67-68 | Once captured, the header stays fixed for the rest of the document. The records already emitted stay in front, unchanged. |
| Extractor.RecordsCarryIdentity | text2table_ui.py:57-70 | Every record starts with the unstripped identity fields of one of the blocks. |
| Extractor.RecordsFitHeader | text2table_ui.py:69 | Records of the record shape are exactly as wide as the header. |
| Extractor.NoSerialNoHeader | text2table_ui.py:72-73 | With no `Sr. No.` anywhere in Part I, reading fails with "Header not found". |
| Extractor.CandidateFromInnerLine | text2table_ui.py:48-66 | Every candidate's fields are those of a line after the first line of some block. |
| Extractor.HeaderFromInnerLine | text2table_ui.py:49-68 | The header is the identity names followed by the fields of a line after the first line of some block, never a block's first line. |
| Extractor.SerialOnlyInFirstLines | text2table_ui.py:53-73 | When only the first lines of blocks name `Sr. No.`, reading fails with "Header not found". |
| Extractor.NoHeaderCandidate | text2table_ui.py:67-73 | With no candidate naming `Sr. No.`, reading fails with "Header not found". |
| Assembler.TextRows | text2table_ui.py:79 | Each row holds its record's fields as text cells, position by position. |
| Assembler.Frame | text2table_ui.py:79 | The data frame has the header as its columns and one row per record, holding that record's cells. |
| Assembler.FirstRepeated | text2table_ui.py:83-85 | It returns a coerced label that names several columns, and none exactly when each coerced label names at most one column. |
| Assembler.CreateFrame | text2table_ui.py:78-87 | It raises the `TypeError` exactly when the header repeats one of the three amount labels. Otherwise the frame has the header as its columns and one row per record. |
| Assembler.KeptFrom | text2table_ui.py:113 | The kept positions are strictly ascending and none of their labels is a dropped name. |
| Assembler.KeptFromComplete | text2table_ui.py:113 | Every position whose label is not dropped is kept. |
| Assembler.Drop | text2table_ui.py:113 | `drop(columns=..., errors='ignore')` removes every column whose label is one of the names, including repeated labels. The remaining columns and their cells stay, in order. |
| Assembler.InsertSerial | text2table_ui.py:116 | Inserts the new column first, holding 1..N in row order. The other columns are unchanged. |
| Assembler.Renumber | text2table_ui.py:113-116 | The table starts with a fresh `Sr. No.` column numbered 1..N. After it comes every record column whose label is neither `Deductor Number` nor `Sr. No.`, in original order, with its cells unchanged. |
| Assembler.NothingToDrop | text2table_ui.py:113-116 | When neither name is present, the table is the records behind the fresh serial column. |
| Assembler.AllKept | text2table_ui.py:113 | With no dropped label, every position is kept, in order. |
| Pipeline.Prepared | text2table_ui.py:99-104 | The text handed to the extractor exists exactly when the upload has the marker. Otherwise the result is the "Expected header not found" error. |
| Pipeline.Convert | text2table_ui.py:99-116 | A table comes out only when preparing and reading both succeed. It is rectangular and starts with the fresh `Sr. No.` column numbered 1..N in row order. |
| Pipeline.ConvertErrors | text2table_ui.py:101-110 | The conversion fails with "Expected header not found" exactly when the upload lacks the marker. Otherwise it can fail only with "Header not found" or the `TypeError` of a repeated amount label. |
| Pipeline.ConvertRejectsRepeatedNumeric | text2table_ui.py:107-110 | Once the records are read, the conversion fails exactly when the extracted header repeats one of the three amount labels. |
| Pipeline.PreparedHasMarker | text2table_ui.py:101-104 | The text handed to the extractor always holds the marker, so the `IndexError` at line 43 cannot occur in the handler. |
| Pipeline.PreparedKeepsOut | text2table_ui.py:101-104 | A single-line text longer than the breaker is in the prepared Part I only when the upload's Part I, up to a second marker, has it. |
| Pipeline.NoSerialMeansMissingHeader | text2table_ui.py:101-107 | An upload with the marker but no `Sr. No.` between the first marker and the next one (or the end) fails with "Header not found". |
| Pipeline.ConvertTableShape | text2table_ui.py:101-116 | A successful conversion gives a rectangular table. It starts with the fresh `Sr. No.` column numbered 1..N, then the deductor's name and TAN. It carries neither `Deductor Number` nor the extracted `Sr. No.`. It is the column rewrite of exactly the extracted header and records, so N is the number of records and the kept cells are unchanged. |
| Pipeline.LeadingColumns | text2table_ui.py:113-116 | Behind the fresh serial column come `Name of Deductor` and `TAN of Deductor`. |
| Pipeline.IdentityColumnsKept | text2table_ui.py:113 | Of the three identity columns only `Deductor Number` is dropped. |

## Left out

- `create_dataframe`'s numeric conversion of cell values (line 85) is left out. `pd.to_numeric` with `errors='coerce'` turns each cell of an amount column into a floating-point number, or a missing value when it does not parse. The model keeps those cells as text. Its failure on a repeated amount label is modelled as `NumericSelection`.
- The Streamlit UI is left out: sidebar, upload, UTF-8 decoding, display, Excel export and the cached download (lines 1-3 and 89-140). The model starts from the decoded text, and it models the exceptions that the handler catches and displays (lines 137-138) as `Failure` values.
- PyText.IsDigits: restricted to ASCII `'0'..'9'`, weaker than `str.isdigit`, which also accepts other Unicode digits.
- PyText.IsSpace: lists the code points `str.isspace` accepts. It is not derived from the Unicode database.
- Normalizer.AddEmptyLine: the loop writes `'\n'` after every piece, so even with no matching line the output is the input plus `'\n'`. A second run adds further blank lines. Whether converting the output of a second run gives the same table is not proved.
- Extractor.ReadData: on text without the marker, line 43 raises `IndexError`. The model returns the distinct error `SectionIndex`.
- Assembler.Renumber: requires every record to be as wide as the header, where pandas would raise instead. `Extractor.RecordsFitHeader` proves that `read_data_from_content` always meets this.
- Assembler.InsertSerial: `df.insert` raises on a duplicate column label. That cannot happen here because the drop removes every `Sr. No.`, so the model has no error case for it.
