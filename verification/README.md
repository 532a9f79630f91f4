# Blocky converters in Dafny

This project models the rules that the Blocky expense-tracking tools apply to
strings and amounts. The tools move line items ("what was paid for" and a
signed amount in euros) between Word documents, Excel sheets, plain-text
import files and the app's folder of receipt files. Five programs are
modelled:

- `word_to_blocky.py` reads the items of a Word document. Its tables come
  first. Only when no table row yields an item does it search the paragraphs
  for "label: amount" phrases. It writes the items as `description | amount`
  lines with a summary footer.
- `word_to_blocky_formatter.py` redraws the document's first table as an
  ASCII grid. It also writes the total of the amounts in the last column and
  one import hint per row.
- `excel_to_blocky.py` sorts the rows of a sheet into valid and invalid
  ones. It writes a line per valid row and a footer with the total and the
  counts.
- `export_to_word.kt` scans a folder of receipt files named
  `YYYY-MM-DD_HH-MM-SS_description_12,50€…`. From each name it reads the
  description and the amount, and it builds the exported table.
- `import_excel.kt` coerces spreadsheet cells to amounts and descriptions,
  counts the imported rows and builds the receipt file names.

Documents, tables, sheets, cells and folder entries are immutable datatypes.
Amounts are exact `real`s, read from their digit strings. Every output file is
the sequence of lines that the source joins with `\n`. The regular expressions
that matter are written out as index scanners. Each scanner comes with lemmas
against an independent statement of its pattern: it finds the leftmost
position where the pattern matches, and there the match a backtracking engine
takes; it reports nothing exactly when the pattern matches nowhere.

- `-?\d+[.,]?\d*`, used by the formatter and the paragraph pattern;
- `([^:]+):\s*(-?\d+[.,]?\d*)\s*€?`, the paragraph pattern;
- `-?\d+[.,]\d+€`, the receipt-name amount;
- `\d{4}-\d{2}-\d{2}_\d{2}-\d{2}-\d{2}_(.+)_-?\d+[.,]\d+€`, the receipt-name
  description.

`RoundTrip.ImportedFileExports` joins the two Kotlin halves. A receipt file
named by the Excel import is listed by the folder export with the description
and the amount it was written with. This holds whenever the description is
describable and the amount's `toString` is a plain numeral.

Modules, one file each: `Text`, `Optional` and `Decimal` (`decimal.dfy`),
`Scan`, `Seqs`, `Docx`, `WordToBlocky`, `Formatter`, `ExcelToBlocky`,
`ExportToWord`, `ImportExcel` and `RoundTrip`.

## Model

| member | source | states |
|---|---|---|
| Text.Strip | word_to_blocky.py:59-60 | `strip()` gives the part of the text between leading and trailing white space runs; the result neither starts nor ends with white space |
| Text.StripIdempotent | word_to_blocky.py:77-82 | stripping an already stripped label again changes nothing |
| Text.ReplaceCharAt | word_to_blocky.py:110 | `replace(',', '.')` turns every comma, and nothing else, into a point, keeping the length |
| Text.ReplaceRoundTrip | word_to_blocky.py:146 | writing the point as a comma and reading the comma back as a point restores the text |
| Text.LJust | word_to_blocky_formatter.py:149 | `ljust(w)` keeps the text and pads it with spaces to `w` characters, never truncating |
| Text.JoinLength | word_to_blocky_formatter.py:143 | `"+".join(parts)` is as long as all parts plus one separator between neighbours |
| Text.ContainsWitness | export_to_word.kt:89 | `contains` holds exactly when the piece occurs at some offset (with `Text.ContainsAt`) |
| Decimal.Parse | word_to_blocky.py:113 | `float` on the cleaned text accepts only a numeral (an optional minus, digits with an optional point and digits, or a point and digits), which spells the text back |
| Decimal.ParseSpell | word_to_blocky.py:113 | every well-formed numeral is read back from its own text |
| Decimal.ParseAccepts | word_to_blocky.py:113 | `float` accepts a text of digits, signs and points exactly when it is a numeral's text |
| Decimal.SpellUnique | word_to_blocky.py:113 | a text spells at most one numeral, the one `float` reads |
| Decimal.ParseOnePoint | word_to_blocky.py:113 | a text with two points is rejected |
| Decimal.NatToString | word_to_blocky.py:154 | the count is written as digits without a leading zero that denote it |
| Decimal.RoundHalfEven | word_to_blocky.py:146 | rounding to the nearest integer, ties to the even one |
| Decimal.Round2 | word_to_blocky.py:146 | `.2f` rounds to a whole number of hundredths within half a cent |
| Decimal.Fixed2Numeral | word_to_blocky.py:146 | `f"{x:.2f}"` writes a minus exactly for negative amounts, no leading zero, two decimals, and the value rounded to cents |
| Decimal.Fixed2Reads | word_to_blocky.py:153 | what `.2f` writes reads back as the amount rounded to cents |
| Scan.LooseNumberEndMatches | word_to_blocky_formatter.py:177 | the anchored match of `-?\d+[.,]?\d*` matches the pattern and is the longest match at that position |
| Scan.LooseNumberEndNone | word_to_blocky_formatter.py:177 | where the scanner finds no match, no slice starting there matches |
| Scan.SearchLooseNumberSpec | word_to_blocky_formatter.py:177 | `re.search` finds the leftmost start of a match and there the greedy match; none means no start anywhere |
| Scan.SearchFinds | word_to_blocky_formatter.py:177 | conversely, the leftmost and longest match is the one the search returns |
| Scan.LooseNumeral | word_to_blocky_formatter.py:179 | a match with its comma read as a point is a well-formed numeral's text |
| Scan.LooseNumberReads | word_to_blocky_formatter.py:180 | `float` never rejects a match once its comma is a point |
| WordToBlocky.KeepAmountChars | word_to_blocky.py:107 | the cleaning keeps only digits, `-`, `.` and `,` |
| WordToBlocky.KeepAppend | word_to_blocky.py:107 | cleaning removes characters one by one, keeping the order of the rest |
| WordToBlocky.KeepClean | word_to_blocky.py:107 | a text of kept characters only is left unchanged |
| WordToBlocky.ExtractAmountSpec | word_to_blocky.py:105-115 | `extract_amount` is `None` exactly when the cleaned text with commas as points is not a numeral, and otherwise that numeral's value |
| WordToBlocky.ExtractAmountSigned | word_to_blocky.py:105-115 | `"-12.3€"` gives -12.3 |
| WordToBlocky.ExtractAmountComma | word_to_blocky.py:105-115 | `"123,45"` gives 123.45 |
| WordToBlocky.ExtractAmountThousands | word_to_blocky.py:105-115 | `"1.234,56"` gives `None`, since the text keeps two points |
| WordToBlocky.ExtractAmountRejects | word_to_blocky.py:105-115 | `"1-2"` and `"abc"` give `None` |
| WordToBlocky.TwoSeparatorsRejected | word_to_blocky.py:107-113 | a text that keeps two separators of either kind is rejected |
| WordToBlocky.ExtractNumeral | word_to_blocky.py:107-113 | a numeral's text, with a point or a comma, gives the numeral's value |
| WordToBlocky.LooseNumberConverts | word_to_blocky.py:83 | every number the paragraph pattern captures converts, so no paragraph match is lost |
| WordToBlocky.RowItemSpec | word_to_blocky.py:58-66 | a row yields an item exactly when it has two cells and its stripped second cell, cleaned and with commas as points, spells a numeral; the item is the stripped first cell and that numeral's value |
| WordToBlocky.TableItemsInOrder | word_to_blocky.py:49-66 | the table items are the items of all rows after each table's row 0, in table order and then row order |
| WordToBlocky.BodyItemsEmpty | word_to_blocky.py:53-66 | a table yields no item exactly when none of its rows after row 0 does |
| WordToBlocky.TableItemsEmpty | word_to_blocky.py:49-70 | the tables yield no item exactly when no body row of any table does |
| WordToBlocky.FindLabelledShape | word_to_blocky.py:74-80 | every paragraph match has a non-empty label without a colon and a number the amount pattern matches |
| WordToBlocky.LabelledForced | word_to_blocky.py:74 | a match at a position has its colon at the first colon from there and its number right after the white space that follows, and its number ends no later than the greedy number match |
| WordToBlocky.StepNoMatch | word_to_blocky.py:74-80 | a search step that skips ahead passes over no position where the pattern matches, and one that stops leaves no match from its start on |
| WordToBlocky.StepFound | word_to_blocky.py:74-80 | a search step that finds a match reports the match a backtracking engine takes at its start: the label up to the colon, the longest number, and an end after the longest white space and optional `€` |
| WordToBlocky.TrailerLongest | word_to_blocky.py:74 | after the number a match takes in the longest run of white space and an optional `€` |
| WordToBlocky.FindLabelledEmpty | word_to_blocky.py:74-80 | `findall` returns no match exactly when the pattern matches at no position of the text |
| WordToBlocky.FindLabelledHead | word_to_blocky.py:74-80 | the first match `findall` returns is the one taken at the leftmost position where the pattern matches, and the others are the matches found from where it ends |
| WordToBlocky.MatchItemsAll | word_to_blocky.py:81-85 | every match becomes an item, in order: its stripped label and its amount |
| WordToBlocky.ParagraphItemsAll | word_to_blocky.py:76-85 | a paragraph yields one item per match in its stripped text, in order, and nothing when it is blank |
| WordToBlocky.ParagraphExample | word_to_blocky.py:74-85 | `"Coffee: 3,50 €"` yields the single item ("Coffee", 3.5) |
| WordToBlocky.ExtractData | word_to_blocky.py:44-88 | if some table row yields an item, the items are the table items and the paragraphs are ignored; otherwise they are the paragraph items |
| WordToBlocky.AmountTextReadsBack | word_to_blocky.py:146 | the amount written in a line is read back by `extract_amount` as the amount rounded to cents |
| WordToBlocky.WriteItems | word_to_blocky.py:141-149 | one line per item, in order, and a running total equal to the sum of all amounts |
| WordToBlocky.SaveToTextFile | word_to_blocky.py:131-154 | the file is the seven-line preamble, one description-and-amount line per item, and a footer with the total and the item count |
| WordToBlocky.Convert | word_to_blocky.py:197-204 | nothing is written exactly when no table row and no paragraph yields an item; otherwise the saved file of the extracted items |
| Formatter.TitleEmpty | word_to_blocky_formatter.py:54-57 | the title is empty exactly when every paragraph is blank |
| Formatter.TitleFirst | word_to_blocky_formatter.py:54-57 | the title is the stripped text of the first paragraph that is not blank |
| Formatter.BorderFlagGrid | word_to_blocky_formatter.py:68-69 | the border flag is true exactly when the style's name contains "Grid"; it is undefined only for a nameless style |
| Formatter.ExtractTableFormat | word_to_blocky_formatter.py:60-103 | extraction fails exactly when the first table has a style without a name, on which the `in` test raises |
| Formatter.ExtractTableFormatSpec | word_to_blocky_formatter.py:53-96 | only the first table is used: the headers are row 0's stripped cells, the rows are rows 1.. stripped cell by cell, header formatting is set exactly when there is a row, plus the title and border flag |
| Formatter.ColumnMaxBound | word_to_blocky_formatter.py:133-136 | no cell of a column, in rows long enough to have one, is longer than the column maximum |
| Formatter.ColumnMaxAttained | word_to_blocky_formatter.py:133-136 | the column maximum is the header's length or some cell's length |
| Formatter.WidthsFit | word_to_blocky_formatter.py:130-139 | there is one width per header, and every header and cell fits its column with two to spare |
| Formatter.WidthsTight | word_to_blocky_formatter.py:130-139 | each width is exactly two more than its header or some cell of the column |
| Formatter.RuleLength | word_to_blocky_formatter.py:143 | a border line is as long as the widths plus one character per column, plus one |
| Formatter.CellsTextLength | word_to_blocky_formatter.py:157-163 | rendered cells take their column's width plus a bar; cells beyond the last column are dropped |
| Formatter.GridRectangular | word_to_blocky_formatter.py:143-163 | with at least one column, the border lines, the header line and every row with all its cells have the same length, and shorter rows render shorter |
| Formatter.GridLayout | word_to_blocky_formatter.py:141-167 | top and bottom borders exactly when the border flag is set, the separator exactly when borders or header formatting are on, then the body rows in order |
| Formatter.ReadAmountNone | word_to_blocky_formatter.py:177-178 | a cell yields no amount exactly when no piece of it matches `-?\d+[.,]?\d*` |
| Formatter.ReadAmountMatch | word_to_blocky_formatter.py:177-180 | a cell's amount is its leftmost-longest match with the comma read as a point |
| Formatter.SumLastCells | word_to_blocky_formatter.py:170-180 | the total adds, row by row, the amount in the last cell of every non-empty row, and 0 where there is none |
| Formatter.HintsMakeTotal | word_to_blocky_formatter.py:194-205 | the hint amounts plus the amounts of one-cell rows make up the total |
| Formatter.FormattedTableLayout | word_to_blocky_formatter.py:119-205 | the grid follows the heading and title, the total line under it carries the table total at two decimals, and one hint line per row with two cells and an amount closes the file |
| ExcelToBlocky.EntriesPartition | excel_to_blocky.py:68-88 | every row is valid or invalid and not both: valid + invalid = rows |
| ExcelToBlocky.TotalOfEntries | excel_to_blocky.py:64-82 | the total is the sum of exactly the amounts of rows that wrote a line |
| ExcelToBlocky.TotalNaN | excel_to_blocky.py:73-75 | the total is NaN exactly when some amount cell is empty, since `float` accepts the NaN pandas reads there |
| ExcelToBlocky.AmountTextReads | excel_to_blocky.py:78 | a line's amount, with its comma read as a point, reads back as the amount rounded to cents |
| ExcelToBlocky.Advance | excel_to_blocky.py:68-88 | one more row adds a line, an item and its amount when the amount converts, and one invalid row otherwise |
| ExcelToBlocky.ConvertRows | excel_to_blocky.py:63-88 | the loop writes one line per valid row in row order, and its counters and total match the rows |
| ExcelToBlocky.Footer | excel_to_blocky.py:90-95 | the footer has the total and the item count, and the invalid-count line exactly when there are invalid rows |
| ExcelToBlocky.Convert | excel_to_blocky.py:40-95 | a sheet with fewer than two columns gives nothing; otherwise the heading, the item lines and the footer of its rows |
| ExcelToBlocky.FirstTwoColumns | excel_to_blocky.py:48-49 | only the first two columns matter |
| ExportToWord.AmountAtSound | export_to_word.kt:90 | where the anchored scan matches, the text up to the `€` is `-?\d+[.,]\d+` |
| ExportToWord.AmountAtComplete | export_to_word.kt:90 | every `-?\d+[.,]\d+` followed by `€` is found where it starts |
| ExportToWord.FindAmountSpec | export_to_word.kt:90-91 | `find` returns the leftmost match, or none when there is no match anywhere |
| ExportToWord.StrictAmountReads | export_to_word.kt:93 | a matched amount always converts once its comma is a point |
| ExportToWord.LastCutSpec | export_to_word.kt:97 | the greedy `(.+)` stops at the last underscore that is followed by an amount and `€` |
| ExportToWord.DescriptionAtSpec | export_to_word.kt:97-98 | the captured description runs from after the time stamp to that underscore, without crossing a line break |
| ExportToWord.DescriptionAtComplete | export_to_word.kt:97-98 | a time stamp followed by an underscore, an amount and `€` that `.+` reaches without a line break always gives a capture |
| ExportToWord.DescriptionAtMatches | export_to_word.kt:97-98 | the scanner captures at a position exactly when the description pattern matches there: a stamp, then a reachable underscore followed by an amount and `€` |
| ExportToWord.FindDescriptionSpec | export_to_word.kt:97-98 | `find` gives the capture of the match at the leftmost position where the description pattern matches, and none when it matches at no position |
| ExportToWord.ItemOfMatch | export_to_word.kt:88-103 | an item comes only from a non-directory entry whose name has an amount and `€`; its amount is the leftmost such amount with the comma read as a point |
| ExportToWord.ItemOfFound | export_to_word.kt:88-103 | conversely, every such entry yields an item |
| ExportToWord.ScanAdvance | export_to_word.kt:88-103 | each matched entry appends exactly one item and adds its amount to the total; other entries change neither |
| ExportToWord.ScanFolder | export_to_word.kt:85-105 | the items are those of the entries in listing order, and the total is their sum; a missing listing gives none |
| ExportToWord.ExportTable | export_to_word.kt:50-133 | the table is the header row, one row per item in scan order, and the "Spolu:" row with the total |
| ImportExcel.JavaTrim | import_excel.kt:119 | the trimmed text neither starts nor ends with a control character or space |
| ImportExcel.ParseDoubleReads | import_excel.kt:119 | a numeral, padded and with an optional `+`, converts to its value |
| ImportExcel.CommaNumeralReads | import_excel.kt:117-133 | a text or formula cell holding a numeral with a decimal comma gives the numeral's value |
| ImportExcel.CoercionsAgree | import_excel.kt:89-136 | the two coercions read a cell alike: a text cell, and a formula without a numeric result, give as amount their text read as a number; a number cell, and a formula with only a numeric result, are described by the amount's `toString`; truth values, blanks and errors never give an amount |
| ImportExcel.NamePartSpec | import_excel.kt:149-153 | the name part has no space: `imported` for a blank description, otherwise the description with spaces as underscores |
| ImportExcel.FileNameDescription | import_excel.kt:150 | the description is read back from the name by turning underscores into spaces, when it has none of its own |
| ImportExcel.Import | import_excel.kt:28-82 | the count equals the items saved, in row order from row 1, up to the last row or the row that raised; an unreadable source gives 0 |
| ImportExcel.ItemsPrefix | import_excel.kt:72-81 | an import cut short by an exception has saved a prefix of the full import |
| ImportExcel.ItemsIgnoreHeader | import_excel.kt:42 | row 0 plays no part |
| ImportExcel.ItemsAt | import_excel.kt:42-57 | every row with both cells and an amount is saved, after the rows before it |
| ImportExcel.ItemsCount | import_excel.kt:42-57 | the rows up to a given row save as many items as there are rows among them with both cells and an amount |
| ImportExcel.ImportCount | import_excel.kt:26-56 | the count a full import returns is the number of rows from 1 to the last row that give an amount, and so at most the number of those rows |
| RoundTrip.NameShaped | import_excel.kt:149-150 | an imported file's name has the stamp, description, `_`, amount and `€` where the export looks for them |
| RoundTrip.ShapedDescription | export_to_word.kt:97-100 | the export reads the description back from such a name |
| RoundTrip.ShapedAmount | export_to_word.kt:89-93 | the export finds the `€` and reads the amount back from such a name |
| RoundTrip.ShapedItem | export_to_word.kt:88-102 | the export reads the item back from such a name |
| RoundTrip.ImportedFileExports | import_excel.kt:145-153 | a file the import writes is listed by the export with its description and amount |

## Left out

- File and process I/O is not modelled. That covers argument checks, file existence and extension warnings, opening and writing files, printing, `main` and `print_usage`. Outputs are sequences of lines.
- Clocks are not modelled. The creation time and the file-name time stamp are parameters (`created`, `stamp`).
- python-docx, pandas, Apache POI and Android are not modelled. Documents, tables, sheets, cells and folder listings are datatypes. A missing listing or an unreadable workbook is an `Option`.
- Toasts, run styling (bold, colour, alignment), the table width and the `(tableWidth * 0.7).toInt()` split are not modelled, because none of them affects the content.
- Saving the Word document and returning its `Uri` are not modelled either.
- The exported document's paragraphs around the table are not modelled: the centred title, the `Dátum: dd.MM.yyyy` line with the current date, the blank paragraphs and the two signature lines (`Podpis odovzdal: …`, `Podpis prijal: …`). They do not depend on the folder's files; only the table does.
- The free-standing `exportToWord` wrapper and the commented-out button and dependency snippets are left out. The wrapper refers to names it does not define.
- `column_widths` read from `cell.width` is left out, because the renderer never uses it.
- A description or cell text that holds a line break of its own is not treated specially. python-docx joins a cell's paragraphs with `\n` and turns `<w:br/>` into `\n`, and an Excel text cell can hold one too. Such a text makes one modelled line two lines of the written file. `Formatter.GridRectangular` then speaks of the modelled lines, not of the lines on the page.
- The body text `saveAmountToFolder` writes into a receipt file is left out. Only the file's name is modelled.
- Amounts are exact reals, so IEEE doubles, their rounding and signed zero are not modelled.
- Decimal.Fixed2Numeral: rounds the exact value half-to-even. Python's `.2f` rounds the binary double instead, which can differ for halves that a double does not hold exactly.
- Decimal.Parse: accepts only numerals made of digits, a minus and a point. Python `float` also accepts exponents, `inf`, `nan`, a leading `+`, underscores between digits and non-ASCII digits; the Excel converter's text cells are the only place those could reach it.
- ImportExcel.ParseDoubleReads: models Java `parseDouble` on plain numerals only. Exponents, `NaN`, `Infinity`, hexadecimal floats and the `d`/`f` suffixes make `ParseDouble` return `None` instead of a number.
- Digits are ASCII only. Python's `\d` on a `str` pattern also matches other Unicode decimal digits.
- Kotlin's `Double.toString` is the parameter `show`. `RoundTrip.ImportedFileExports` assumes it writes a plain numeral, which fails for amounts it writes in `E` notation such as `1.0E7`. Such files would not be listed by the export.
- Python's `repr` of a number cell is the parameter `repr` in the Excel converter.
- The locale's `String.format("%.2f €")` is the parameter `money` in the export.
- Empty pandas cells are modelled as NaN, which `float` accepts. A NaN amount writes the line `nan` and makes the total NaN.
- An exception in the Excel import's row loop is the parameter `fault`, the row at which the loop stops.
- A failure while saving a file is swallowed by the source and does not change the count, so it is not modelled.
- ExcelToBlocky.Convert: does not model the per-row `except Exception` branch (excel_to_blocky.py:86-88). `str()` of the modelled cell kinds never raises, so that branch cannot be reached here. It also does not model an exception while opening the output file, which returns `False`.
- Formatter.ExtractTableFormat: models only the exception a nameless style raises. Library exceptions while reading the document are not modelled.
