# CSV-to-template upload handler, modelled in Dafny

The modelled system is a small web handler. It accepts an uploaded CSV file
and copies the first column of four fixed rows into four fixed cells of a
spreadsheet template. It then offers the filled workbook for download. This
project models the logic inside that handler and proves properties about it:

- `FileNames` (`file_names.dfy`): the extension check `allowed_file`, and the
  output name `filled_<root>.xlsx`. Here `<root>` follows the POSIX rules of
  `os.path.splitext`.
- `CellMapper` (`cell_mapper.dfy`): the mapping block. Column 0 of rows 0, 4,
  15 and 18 goes to B5, B2, B14 and B16, and each rule is guarded by the row
  count. The rules are kept as a list, `Rules`, and `Filled` runs them one
  after another; `Filled` is the specification. The `Worksheet` class holds
  the sheet as a map that is updated in place. Its method `FillFrom` makes the
  four guarded writes as the source does, and its contract ties the new
  sheet to `Filled`.
- `Upload` (`upload.dfy`): the order of the request checks as a function
  (`Decide`). It is proved equal to an independent "first failing check"
  definition. `HandleUpload` strings the checks, the mapping and the output
  name together.
- `Text` (`text.dfy`): the Python string operations this relies on:
  `str.strip()` with Python's whitespace set, ASCII lower-casing and `rfind`.

A table cell is either `Present(text)` or `Missing`. `str()` of pandas' NaN
prints as `nan`, so a `Missing` cell is written as `nan`, as the code does.
An empty string would be a clearer rendering of a missing cell; the model
keeps the code's `nan`. The output name follows the code's `splitext` rule rather than a
plain "basename" rule. So a name made only of dots before `.csv` keeps its
extension: `.csv` becomes `filled_.csv.xlsx`.

## Model

| member | source | states |
|---|---|---|
| `Text.IsSpace` | app.py:60 | definition: the characters Python's `str.isspace` accepts, the set `.strip()` removes |
| `Text.TrimLeft` | app.py:60 | drops leading whitespace; the result is empty or starts with a non-space |
| `Text.TrimRight` | app.py:60 | drops trailing whitespace; the result is empty or ends with a non-space |
| `Text.Strip` | app.py:60 | the stripped text neither starts nor ends with whitespace (Python's `str.isspace` set) |
| `Text.TrimLeftIsSuffix` | app.py:60 | what the left trim keeps is a suffix of the text, and everything it drops is whitespace |
| `Text.TrimRightIsPrefix` | app.py:60 | what the right trim keeps is a prefix of the text, and everything it drops is whitespace |
| `Text.StripIsSlice` | app.py:60 | the stripped text is a slice of the input with only whitespace before and after it |
| `Text.StripUnique` | app.py:60 | any text without outer whitespace, padded with whitespace on both sides, strips back to itself |
| `Text.StripIdempotent` | app.py:60 | stripping twice equals stripping once |
| `Text.LowerChar` | app.py:20 | `.lower()` on one character: the result is never an upper-case ASCII letter, and only an upper-case letter is changed |
| `Text.Lower` | app.py:20 | definition: `.lower()` applied character by character; the result has the input's length |
| `Text.RFind` | app.py:20 | the result is -1 or an index of the string that holds the character |
| `Text.RFindIsLast` | app.py:20 | the result is -1 exactly when the character does not occur, and the character does not occur after the result |
| `FileNames.AllowedFile` | app.py:19-20 | definition: the name contains `.` and the text after its last `.`, lower-cased, is in the allowed set `{csv}` |
| `FileNames.LowerIsCsv` | app.py:20 | the lower-cased extension equals `csv` exactly when it spells c, s, v in any case |
| `FileNames.AllowedFileIffCsvSuffix` | app.py:19-20 | `allowed_file` holds exactly when the name ends in `.` followed by `csv` in any case, so only the last suffix counts |
| `FileNames.AllowedFileLastDot` | app.py:20 | in an accepted name the last `.` is the one before `csv`, and it lies after the last `/` |
| `FileNames.AllowedExtensionSpelling` | app.py:20 | in an accepted name, the text after the last `.` spells `csv` in some mixture of cases |
| `FileNames.AllowedFileAccepts` | app.py:19-20 | `DATA.CSV`, `data.csv`, `x.txt.csv` and `.csv` are accepted |
| `FileNames.AllowedFileRejects` | app.py:19-20 | `data.txt`, `data`, `x.csv.txt`, `csv`, the empty name and `data.csv.` are rejected |
| `FileNames.SplitExt` | app.py:83 | the extension is empty or starts with `.` |
| `FileNames.SplitExtJoins` | app.py:83 | root and extension concatenate back to the name |
| `FileNames.SplitExtExtension` | app.py:83 | the extension holds no `.` after its first character and no `/` |
| `FileNames.NonDotBetweenIff` | app.py:83 | the scan over the final component up to the last `.` succeeds exactly when that text is not made only of dots |
| `FileNames.SplitExtSplits` | app.py:83 | the name is split exactly when its last `.` lies after its last `/` and the text between them is not only dots |
| `FileNames.SplitExtNonEmptyIff` | app.py:83 | the extension is non-empty exactly when the final path component has a `.` somewhere after a non-dot character (leading dots are not an extension) |
| `FileNames.OutputName` | app.py:83 | the name starts with `filled_`, ends with `.xlsx` and is at least 12 characters long |
| `FileNames.OutputNameKeepsRoot` | app.py:83 | what stands between `filled_` and `.xlsx`, followed by the dropped extension, is the uploaded name |
| `FileNames.AllowedOutputName` | app.py:83 | for an accepted name, the final `.csv` is replaced by `.xlsx`, unless the final component is only dots before it; then `.xlsx` is appended |
| `FileNames.PlainOutputName` | app.py:83 | an accepted name with no `/` and no leading `.` loses exactly its final four characters, the `.csv` |
| `FileNames.OutputNameOfDataCsv` | app.py:83 | `data.csv` gives `filled_data.xlsx` |
| `FileNames.OutputNameKeepsInnerDots` | app.py:83 | `report.v2.csv` gives `filled_report.v2.xlsx`: only the last extension is removed |
| `FileNames.OutputNameOfDotCsv` | app.py:83 | `.csv` gives `filled_.csv.xlsx` |
| `CellMapper.Render` | app.py:60 | definition of `str(cell)`: a text cell prints as its text, NaN as `nan` |
| `CellMapper.FirstColumn` | app.py:60 | definition of `df.iloc[r, 0]`: the row's first cell |
| `CellMapper.Extract` | app.py:60 | the value taken from a row never starts or ends with whitespace |
| `CellMapper.ExtractMissing` | app.py:60 | a missing cell is written as `nan` |
| `CellMapper.ExtractPresent` | app.py:60-61 | a text cell is written without the whitespace surrounding it |
| `CellMapper.Apply` | app.py:59-61 | definition of one guarded block: when the rule's row exists, its target gets the extracted value; otherwise the sheet is unchanged |
| `CellMapper.ApplyRules` | app.py:58-80 | definition: the guarded blocks one after another, in list order |
| `CellMapper.Filled` | app.py:58-80 | definition: the constant list `Rules` (rows 0, 4, 15, 18 to B5, B2, B14, B16, in source order) run by `ApplyRules`; the specification `FillFrom` meets |
| `CellMapper.RulesDistinct` | app.py:58-80 | the four rules write four different cells |
| `CellMapper.TargetsOfRules` | app.py:58-80 | the cells the rules target are exactly B5, B2, B14 and B16 |
| `CellMapper.ApplyRulesOther` | app.py:58-80 | running any rule list leaves a cell that no rule targets as it was |
| `CellMapper.ApplyRulesAt` | app.py:58-80 | with distinct targets, each rule's target holds its extracted value when its row exists, and otherwise keeps its earlier value |
| `CellMapper.OrderIrrelevant` | app.py:58-80 | with distinct targets, any ordering of the same rules gives the same sheet |
| `CellMapper.FilledAtRule` | app.py:58-80 | each of the four rules writes its target exactly when the table has more rows than the rule's row index |
| `CellMapper.FilledKeepsOthers` | app.py:58-80 | every cell other than B5, B2, B14 and B16 keeps its template value, or stays absent |
| `CellMapper.FilledTargets` | app.py:59-80 | B5 is written when there is at least 1 row, B2 at 5, B14 at 16 and B16 at 19, with column 0 of rows 0, 4, 15 and 18; a target whose guard fails keeps its template value |
| `CellMapper.FilledIsOverlay` | app.py:58-80 | the result is the template overlaid with the cells written into an empty sheet, and those cells are among the four targets |
| `CellMapper.FilledValuesStripped` | app.py:60-79 | every written value has no leading or trailing whitespace |
| `CellMapper.FilledIdempotent` | app.py:58-80 | running the mapping twice with the same table gives the same sheet as running it once |
| `CellMapper.FilledEmptyTable` | app.py:59 | an empty table leaves the sheet unchanged |
| `CellMapper.FilledFiveRows` | app.py:59-80 | a five-row table writes B5 and B2 and nothing else |
| `CellMapper.FilledFullTable` | app.py:59-80 | a table of at least 19 rows writes all four targets from rows 0, 4, 15 and 18 and nothing else |
| `CellMapper.FilledInSteps` | app.py:58-80 | four guarded writes, for the rules in order, leave the sheet equal to `Filled` |
| `CellMapper.FilledUnfolds` | app.py:58-80 | the rule list runs as four guarded blocks in the order B5, B2, B14, B16 |
| `CellMapper.Worksheet.constructor` | app.py:55-56 | a freshly loaded sheet holds the template's cells |
| `CellMapper.Worksheet.SetCell` | app.py:61 | `ws[coord] = value` changes that cell and no other |
| `CellMapper.Worksheet.FillFrom` | app.py:58-80 | the four guarded writes leave the sheet equal to `Filled` of the old sheet |
| `Upload.Decide` | app.py:34-49 | definition: the early returns in source order, giving NoFile, NoSelection, BadExtension, NoTemplate or Proceed |
| `Upload.DecideIsFirstFailure` | app.py:34-49 | the chain of early returns gives the refusal of the earliest failing check, in the order file field, empty name, extension, template |
| `Upload.DecideIff` | app.py:34-49 | each outcome holds exactly when all earlier checks pass and its own check fails; only a request that passes all four proceeds |
| `Upload.EmptyNameFailsBothChecks` | app.py:38-42 | an empty name is reported as "no file selected", although `allowed_file` also rejects it |
| `Upload.TemplateCheckedLast` | app.py:41-49 | a missing template is reported only for a present file with an accepted name, and such a request never proceeds |
| `Upload.SlashNameProceeds` | app.py:41-83 | `sub/data.csv` passes every check and gets the output name `filled_sub/data.xlsx`: the directory part is kept as text |
| `Upload.DecideExamples` | app.py:34-49 | a request without a file field gives NoFile, whatever its name and template flag; `data.txt` gives BadExtension; `DATA.CSV` without a template gives NoTemplate; `data.csv` with one gives Proceed |
| `Upload.Message` | app.py:35-49 | every refusal message starts with the error mark and a space |
| `Upload.MessagesDistinct` | app.py:35-49 | the four refusals have four different messages |
| `Upload.HandleUpload` | app.py:33-87 | the upload is saved exactly when the name is accepted, before the template is looked for; for a parsed table, the sheet is filled and the download gets the derived name only when, and whenever, every check passes; otherwise the sheet is untouched and the refusal's message is returned |

## Left out

- Flask routing, the HTML form of `index`, `send_file` and `app.run` are not modelled: they are web plumbing. The response only carries the output file's name, not the attachment name `send_file` derives from it.
- The filesystem is not modelled: `os.makedirs`, `file.save`, `os.path.exists`, `os.path.join` and `wb.save`. Whether the template exists is an input field of the request. Saving the upload is reported as a flag. Reading the saved workbook back is not modelled; the sheet map is what would be saved.
- Parsing the CSV with pandas is not modelled. Its type inference is left out too: `007` read as `7`, and numbers printed as `1.0`. The model takes the already-parsed table of text-or-missing cells. Table rows are parsed rows, not file lines: pandas skips blank lines and gives every parsed row the full width. `CellMapper.FirstColumn` reads a row without cells as missing; that is a convention of the model for an input pandas does not produce.
- Loading the workbook with openpyxl is not modelled, and neither are the `BadZipFile` and generic exception handlers: they are foreign calls and exception text. `HandleUpload` receives the template sheet already loaded, where the source loads it after the template check. Template cells are modelled as text.
- The `print` diagnostics are not modelled. They are an informational trace.
- HandleUpload: treats a name with `/` as a plain string, so a name such as `sub/data.csv` passes every check (`Upload.SlashNameProceeds`). In the source the upload is saved under `uploads/sub/` (app.py:44-45, outside the `try`) and the workbook under `output/filled_sub/` (app.py:84-85), and app.py:14-15 create neither directory; a name starting with `/` makes `os.path.join` drop the folder altogether. So `uploadSaved` and `Download(OutputName(f))` describe the source only when those subdirectories exist. `Download` carries the output file's name under the output folder, while `send_file` (app.py:87) names the attachment after its last path component.
- HandleUpload: answers `Download` for every request that passes the four checks, with an already-parsed table. The source can still fail after the checks, and then answers "Unexpected Error" from the generic handler (app.py:92-93): an upload with no data rows (empty, or only blank lines) makes `pd.read_csv` (app.py:52) raise, so it never reaches the mapping. The CSV is read with `header=None`, so every parsed table has at least one row; `HandleUpload` with an empty table and `CellMapper.FilledEmptyTable` describe a case the source turns into that error instead.
- SetCell: stores every string unchanged. openpyxl's cell setter behind `ws['B5'] = value` (app.py:61, 67, 73, 79) cuts a longer value to its first 32,767 characters with no error, and raises on control characters other than tab, newline and carriage return; only the latter ends in the generic handler (app.py:92-93), which the model does not have.
- Concurrent requests racing on the same output path are not modelled.
- Text.LowerChar: lower-cases only ASCII A–Z, where Python's `str.lower` covers all of Unicode. No non-ASCII character lower-cases to `c`, `s` or `v`, so `allowed_file` is modelled exactly.
- FileNames.SplitExt: follows POSIX `os.path.splitext`, with `/` as the only separator; Windows separators are not modelled.
- No lemma fixes concrete cell texts for a 20-row table; `CellMapper.FilledFullTable` with `CellMapper.ExtractPresent` covers every text.
- The file name is a plain string. Werkzeug never gives a file field without a name.
