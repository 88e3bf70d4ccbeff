# INSS payslip ledger: a Dafny model

This project models the core of `app2.py`, a tool that reads INSS payslip PDFs
(contracheques) and builds a chronological ledger of deductions. The model covers these steps:

- **Scanner** (`extrair_dados_contracheques_plumber`). Extraction stays off until the
  "Data de Início do Pagamento (DIP)" banner. After that, birth-date lines are dropped.
  Each remaining line is classified as a "Rubrica" header row, a numbered deduction
  record, or nothing. Every row is stamped with the page's "Competência MM/YYYY" and
  the page number.
- **Segment counter.** It tags each record with "Competência n", where n is the number
  of header rows before it.
- **Competency extractor** (`extrair_competencias_filtradas_por_contexto`). It collects
  the "MM/YYYY" periods found in the three lines after a line that names both
  "Competência" and "Período". The periods are de-duplicated, sorted by date and
  labelled "Competência 1", "Competência 2", and so on.
- **Date binder** (`criar_informacoes_com_datas`). It gives segment n the n-th period.
- **Name and NIT regexes** (`extrair_nome_e_nit_corrigido`).
- **Glossary filter** (`cruzar_descontos_com_rubricas`), with the fuzzy scorer as a
  parameter.
- **Row handling in `main`.** Header rows are dropped, then blank amounts. After the
  glossary filter comes the user's selection. The rows are sorted stably by (Data text,
  page) and projected to the four report columns.
- **Totals** (`inserir_totais_na_coluna`). It appends "Valor Total (R$)" and
  "Em dobro (R$)" and blanks their other cells.
- **Amount conventions.** `_to_float`, `en_us_format` and `formatar_valor_brl`.
- **Paragraph rewrite** (`ajustar_valores_docx`). For every amount that matches
  `[\d,]+\.\d{2}` in a body paragraph of the DOCX, it replaces each occurrence of that
  text with its `formatar_valor_brl` rendering, one amount after the other. This turns a
  paragraph with a single en-US amount into the Brazilian convention.

Modules, one file each:

- `Text`: Python string primitives on `seq<char>`.
- `Wrappers`: `Option` and `Result`.
- `Amounts`
- `Scanner`
- `Competency`
- `Binder`
- `Identity`
- `Glossary`
- `Totals`
- `Pipeline`
- `Rewrite`

Loops in the source are methods with loop invariants. Each method is proved equal to a
specification function, and the properties are lemmas about those functions. Amounts
are exact: a rendered amount is a sign plus a whole number of hundredths, and
`float()` is read as an exact real.

## Model

| member | source | states |
|---|---|---|
| Amounts.ParseFloat | app2.py:78 | what `float()` returns is a well-formed decimal: digits on either side of an optional point, at least one digit |
| Amounts.ParseUnsignedIff | app2.py:78 | an unsigned text is read exactly when it is digits with at most one point and at least one digit, and the result holds the digits before and after the point |
| Amounts.ParseFloatIff | app2.py:78 | `float()` succeeds exactly when the stripped text is an optional sign followed by such a decimal; the result is negative exactly when the sign is '-', and its digits are those written |
| Amounts.RoundHalfEven | app2.py:90 | the rounded count of hundredths is the floor or the ceiling of the exact value, within one half of it, and even on a tie |
| Amounts.EnUsFormatHundredths | app2.py:89-90 | `EnUsFormat`, the model of `f"{x:,.2f}"`: the text of a whole number n of hundredths is the en-US rendering of \|n\| with the sign of n |
| Amounts.EnUsFormatDouble | app2.py:93 | `en_us_format(2 * soma)` renders twice those hundredths |
| Amounts.FormatValorBrl | app2.py:111-117 | input whose digits `float()` refuses, once ',' and '.' are removed, comes back unchanged (the `except` branch) |
| Amounts.SwapSeparatorsExchanges | app2.py:115 | the "X" placeholder chain exchanges ',' and '.' character by character on any text without an 'X' |
| Amounts.SwapEnUsIsBr | app2.py:115 | exchanging the separators of an en-US rendering gives the Brazilian rendering of the same amount |
| Amounts.GroupDigits | app2.py:114 | removing the separators from a thousands grouping leaves digits whose value is the grouped number |
| Amounts.StripSeparatorsDrops | app2.py:114 | `replace(",", "").replace(".", "")` removes exactly the ',' and '.' characters |
| Amounts.ParseStripFormatted | app2.py:114 | reading either rendering with its separators removed recovers its sign and its hundredths |
| Amounts.FormatValorBrlOfHundredths | app2.py:111-117 | `formatar_valor_brl` of the en-US or the Brazilian rendering of an amount is the Brazilian rendering |
| Amounts.FormatValorBrlOfEnUs | app2.py:111-117 | round trip: en-US "1,234.56" becomes "1.234,56", for every amount in hundredths |
| Amounts.FormatValorBrlReadable | app2.py:113-115 | readable input is shown as the Brazilian rendering of its digits read as hundredths, with the input's sign |
| Amounts.FormatValorBrlIdempotent | app2.py:111-117 | applying `formatar_valor_brl` to its own output changes nothing, for every input |
| Amounts.ToFloatReads | app2.py:76-80 | `ToFloat`, the model of `_to_float`, is `float()` of any text with ',' replaced by '.' (surrounding whitespace included), and 0 on failure |
| Amounts.ToFloatDecimalComma | app2.py:78 | an amount like "12,5" is read as 12.5 |
| Amounts.ToFloatThousandsDot | app2.py:78-80 | an amount with a '.' thousands separator and a ',' decimal separator ("1.500,00") reads as 0 |
| Scanner.PageLines | app2.py:325 | splitting a page's text at line breaks and joining the lines back gives the text |
| Scanner.HasDipIff | app2.py:315-327 | a page's lines hold the DIP banner exactly when some line matches `padrao_DIP` at its start |
| Scanner.FirstDip | app2.py:326-331 | the first DIP line of a page: no earlier line matches, and there is none exactly when no line matches |
| Scanner.KeptStep | app2.py:325-336 | one step of the line filter: before the trigger a line is skipped, the DIP line switches extraction on and is skipped, and after it birth-date lines are dropped |
| Scanner.SearchCompetency | app2.py:342-343 | the page's Data is captured as "MM/YYYY" text |
| Scanner.PageDate | app2.py:342-343 | the page's Data is "N/A" or a captured "MM/YYYY" |
| Scanner.Description | app2.py:363 | the description has no leading or trailing whitespace |
| Scanner.ClassifyCases | app2.py:346-371 | `Classify`, the classification of one line: a line mentioning "RUBRICA" in any case gives one header row; otherwise it gives a record exactly when it has at least three fields and the first is all digits; the record's code is the first field, its amount the last, and both carry the page's Data and number |
| Scanner.RecordFields | app2.py:359-364 | a record's code is never "Rubrica" and its amount is a non-empty field without spaces |
| Scanner.ClassifyAllRows | app2.py:346-371 | each surviving line gives at most one row, stamped with the page's Data and number |
| Scanner.FilterLines | app2.py:324-336 | the line loop keeps exactly the lines of the filter specification, and extraction is on afterwards exactly when it was on before or the page has a DIP line |
| Scanner.FilterStep | app2.py:326-336 | one iteration of the line loop keeps that loop's invariant |
| Scanner.ClassifyLine | app2.py:346-371 | one line of the classification loop appends exactly the rows of the classification specification |
| Scanner.ClassifyLines | app2.py:345-371 | the classification loop produces the rows of all surviving lines in order |
| Scanner.ScanPage | app2.py:318-371 | one page: an empty filtered page gives nothing, and the extraction flag is carried to the next page |
| Scanner.ExtractRows | app2.py:313-372 | the page loop yields exactly the rows of `Scan`, the specification that `ScanGating`, `ScanWithoutTrigger` and `ScanRows` describe |
| Scanner.KeptPagesAt | app2.py:314-336 | a page's lines are filtered with extraction on exactly when an earlier page held a DIP line |
| Scanner.DropBirthKeeps | app2.py:333-336 | after the trigger, a line is kept exactly when it does not contain "Data de Nascimento" |
| Scanner.ScanGating | app2.py:314-334 | when the first DIP line is line k of page p, earlier pages keep nothing, page p keeps only the lines after k (without birth-date lines), and every later page keeps all lines except birth-date lines |
| Scanner.ScanWithoutTrigger | app2.py:326-331 | without a DIP line anywhere, the scan yields no row |
| Scanner.ScanRows | app2.py:345-371 | every row is a header row or a record with a numeric code and a non-empty amount, and its page lies between 1 and the page count |
| Scanner.AssignIntervals | app2.py:374-382 | the counter loop keeps the row count and gives row i exactly its interval |
| Scanner.ExtractPayslip | app2.py:305-383 | the whole extraction: the scan's rows, each with its interval |
| Competency.MatchIsPeriod | app2.py:281 | a match of the period pattern is "MM/YYYY" with a month from 01 to 12 |
| Competency.MatchesApart | app2.py:281 | two matches never overlap |
| Competency.FindPeriodsIff | app2.py:294-296 | `findall` returns a string exactly when the pattern (word boundaries included) matches it somewhere in the line, and each one is a period |
| Competency.FindPeriodsSound | app2.py:294 | every string `findall` returns is a match at or after the start position |
| Competency.FindPeriodsComplete | app2.py:294 | every match at or after the start position is returned |
| Competency.WindowIff | app2.py:292-294 | the window of a context line holds exactly the periods found in its next lines that exist |
| Competency.PagePeriodsIff | app2.py:290-296 | a page contributes a period exactly when it is found in one of the three lines after a line naming "Competência" and "Período" |
| Competency.PeriodsCollected | app2.py:280-296 | a period is collected exactly when some page has it in such a window, and it is always a period |
| Competency.CollectPage | app2.py:289-296 | the line loop of one page appends exactly that page's windowed periods, in order |
| Competency.CollectPeriods | app2.py:280-296 | the page loop collects exactly the specified periods, in page and line order |
| Competency.KeyInjective | app2.py:298 | distinct periods have distinct `strptime` dates |
| Competency.Insert | app2.py:298 | adding a period to a sorted list without repeats keeps it sorted without repeats, with the same elements plus the new one |
| Competency.SortUnique | app2.py:298 | `sorted(set(...))` is strictly increasing by date and holds exactly the collected periods |
| Competency.ChronologicalUnique | app2.py:298 | two strictly increasing lists with the same periods are equal, so the result does not depend on the set's order |
| Competency.Label | app2.py:299-302 | the i-th period is labelled "Competência i", counting from 1 |
| Competency.Tabulate | app2.py:298-302 | the table fails exactly when some period has year 0000, which `strptime` rejects; otherwise its dates are strictly increasing, hold exactly the collected periods, and are labelled in order |
| Competency.ExtractCompetencies | app2.py:275-303 | the extractor with its loops gives the specified table |
| Binder.IntervalNumberOfLabel | app2.py:393-395 | the binder reads back the segment number that the counter wrote |
| Binder.BindDates | app2.py:390-399 | the row count is kept, and only the Data field of each row changes, to its bound date |
| Binder.BoundDateOfSegment | app2.py:391-398 | a record in segment n, with 1 <= n <= the number of competencies, gets the n-th period; header rows, segment-0 records and out-of-range segments keep their Data |
| Identity.NitRun | app2.py:264 | the longest leading run of `[\d\.\-]` |
| Identity.NameRun | app2.py:269 | the longest leading run of `[A-Z\s]` |
| Identity.NitAt | app2.py:264 | the NIT capture is non-empty and made of digits, '.' and '-' |
| Identity.NameAt | app2.py:269 | the name capture is non-empty and made of capitals and whitespace |
| Identity.SearchLeftmost | app2.py:264-269 | `re.search` finds nothing exactly when no position matches; otherwise it returns the capture at the leftmost matching position |
| Identity.NitField | app2.py:257-266 | `Nit`: the NIT is "N/D" exactly when no position matches, and otherwise it is the capture unchanged by `strip()` |
| Identity.NitOfLabel | app2.py:264-266 | round trip: "NIT:", any spacing, a NIT and a non-NIT character read back as that NIT |
| Identity.NameCapture | app2.py:269 | after the label, the capture is the name followed by nothing or by a line break and more |
| Identity.NameFirstLine | app2.py:271 | `Name`: stripping and cutting at the first line break leaves the name |
| Identity.NameOfLabel | app2.py:269-271 | round trip: "Nome:", any spacing, a name and then a line break or a character outside `[A-Z\s]` read back as that name |
| Identity.NameBeforeNonName | app2.py:269-271 | after "Nome:" and spaces followed by a digit, the engine backtracks to one space and the name is empty, not "N/D" |
| Glossary.BestScore | app2.py:240 | the reported score is the best score of the description against the glossary, and some glossary entry reaches it |
| Glossary.UniqueDescriptions | app2.py:237 | `unique()`: each description of the table exactly once |
| Glossary.FilterByGlossary | app2.py:229-244 | the mapping loop and mask give the specified filter |
| Glossary.GlossaryFilterMembers | app2.py:234-243 | `GlossaryFilter`: a row is kept exactly when it is in the table, the glossary is not empty and its best score reaches the threshold; so an empty table or glossary gives nothing |
| Glossary.SameDescriptionSameFate | app2.py:238-243 | rows that share a description are kept or dropped together |
| Glossary.GlossaryFilterSubsequence | app2.py:244 | the result keeps the input's order |
| Glossary.ThresholdExtremes | app2.py:241 | a threshold of 0 or less keeps every row; one above 100 keeps none |
| Totals.Position | app2.py:73 | a column's position, equal to the column count exactly when it is absent |
| Totals.SumColumn | app2.py:82-83 | the loop sums the column's amounts as `_to_float` reads them |
| Totals.ColumnSumPermutation | app2.py:82-83 | `ColumnSum`: any permutation of the rows has the same column sum |
| Totals.SumByPermutation | app2.py:83 | a sum of readings over rows does not depend on their order |
| Totals.BlankMarkers | app2.py:104-107 | column by column, a marker row loses every cell outside DESCRIÇÃO and the value column; other rows are untouched |
| Totals.FinishTotals | app2.py:84-109 | a zero sum returns the table; otherwise the two rows are appended and blanked |
| Totals.InsertTotals | app2.py:71-109 | the whole insertion: the table unchanged without the value column, else as the sum decides |
| Totals.FinishShape | app2.py:95-107 | exactly two rows are appended, in order: the sum under the value column with "Valor Total (R$)", then its double with "Em dobro (R$)", blank elsewhere; earlier rows are kept, except that marker-labelled rows lose their other cells |
| Totals.TotalsForCents | app2.py:84-93 | for a sum of n hundredths, the rows hold the en-US renderings of n and 2n; a zero sum returns the table unchanged |
| Totals.FinishWellFormed | app2.py:95-107 | the columns are kept, every row has one cell per column, and there are two more rows |
| Totals.TotalsShape | app2.py:71-109 | the table grows by two rows or not at all, with the same columns |
| Pipeline.Filter | app2.py:502 | boolean indexing (here and at line 565) keeps exactly the rows that satisfy the mask |
| Pipeline.FilterSubsequence | app2.py:565 | boolean indexing keeps the surviving rows in their original order |
| Pipeline.TextLessTransitive | app2.py:614 | Python's string order is transitive |
| Pipeline.TextLessTotal | app2.py:614 | and total |
| Pipeline.NotBeforeTransitive | app2.py:614 | the (Data, page) order is a total preorder |
| Pipeline.SortRows | app2.py:614 | `sort_values` is a permutation of the rows |
| Pipeline.SortRowsSorted | app2.py:614 | the result is ordered by (Data text, page) |
| Pipeline.SortRowsStable | app2.py:614 | rows with the same (Data, page) keep their relative order |
| Pipeline.DataOrderIsTextual | app2.py:614 | Data sorts as text: "01/2024" comes before "12/2023" |
| Pipeline.UndatedLast | app2.py:614 | a page without a competency ("N/A") sorts after every dated page |
| Pipeline.LedgerMembers | app2.py:502-614 | `Ledger`: a row reaches the report exactly when it is a bound non-header row with a non-blank amount, matches the glossary and was selected; the report is sorted |
| Pipeline.ReportSum | app2.py:615 | the DESCONTOS sum of the projected report is the sum of the rows' amounts read by `_to_float` |
| Pipeline.ReportSumPermutation | app2.py:615 | two reports whose rows are permutations of each other have the same DESCONTOS sum |
| Pipeline.LedgerTotalIgnoresSort | app2.py:614-619 | the total inserted after `sort_values` equals the DESCONTOS sum of the selected rows before sorting |
| Pipeline.Project | app2.py:615 | the four report columns Código, DESCRIÇÃO, DESCONTOS and Data, row by row |
| Pipeline.RenderReport | app2.py:645-658 | each printed cell is the table's cell, with a non-blank DESCONTOS cell passed through `formatar_valor_brl`; the two totals rows are bold |
| Pipeline.FinalReport | app2.py:611-658 | the final report prints the rendered, totalled ledger |
| Pipeline.CellOfEnUs | app2.py:655-656 | `Cell`, the printed DESCONTOS cell: a totals cell (en-US) is printed in the Brazilian convention |
| Pipeline.CellOfBr | app2.py:655-656 | a payslip amount already in the Brazilian convention is printed unchanged |
| Pipeline.MarkerRowsOf | app2.py:95-107 | on the report the two added rows are exactly ["", "Valor Total (R$)", total, ""] and ["", "Em dobro (R$)", double, ""] |
| Pipeline.ReportWithoutTotals | app2.py:84-85 | a zero DESCONTOS sum leaves the projected rows alone |
| Pipeline.ReportTotalsRows | app2.py:619 | with a sum of n hundredths, n not 0, the report ends with the two totals rows holding the en-US renderings of n and 2n |
| Pipeline.ReportTotalsAmounts | app2.py:655-656 | those rows print the Brazilian renderings of n and 2n |
| Rewrite.AmountRun | app2.py:212 | the greedy `[\d,]+` run |
| Rewrite.MatchLengthIff | app2.py:212 | a prefix is in the language of `[\d,]+\.\d{2}` exactly when it is the match at that position |
| Rewrite.FindAmountsSound | app2.py:215 | every string `findall` returns is in the pattern's language |
| Rewrite.FindAmountsNone | app2.py:215-216 | `findall` finds nothing exactly when the pattern matches at no position |
| Rewrite.FindAmountsSkip | app2.py:215 | `findall` is leftmost: it gives the results of the search from the first matching position (`FirstMatch`), no earlier position matches, and there is none exactly when it finds nothing |
| Rewrite.FormatValorBrlConverts | app2.py:218 | `formatar_valor_brl` turns every en-US rendering into the Brazilian one |
| Rewrite.AdjustNoMatch | app2.py:216 | a paragraph without a match is left alone |
| Rewrite.MatchEnUsFound | app2.py:215 | an en-US amount followed by anything is the first amount found |
| Rewrite.AdjustEnUs | app2.py:215-219 | intended rewrite `Adjust` (the corrected half of the finding below): a signed en-US amount followed by anything becomes its Brazilian rendering; the minus sign is kept and is not part of the match |
| Rewrite.AdjustParagraph | app2.py:214-219 | intended rewrite `Adjust` (the corrected half of the finding below): when the plain text has no digit or comma, `findall` finds exactly the paragraph's amounts, and the rewrite turns the en-US paragraph into the Brazilian one |
| Rewrite.ReplaceFound | app2.py:215-219 | the inner loop, as written, is `AsWritten`: the found amounts of the original text, each replaced everywhere in turn |
| Rewrite.ReplaceAbsentAmount | app2.py:219 | where the pattern matches nowhere, `str.replace` of an amount changes nothing |
| Rewrite.ReplaceSingle | app2.py:217-219 | when `findall` finds a single amount, its global replacement rewrites only that match |
| Rewrite.AsWrittenSingle | app2.py:215-219 | on a paragraph with at most one amount, the code as written equals the per-match rewrite |
| Rewrite.AsWrittenSingleAmount | app2.py:214-219 | round trip for the code as written: an en-US paragraph with at most one amount (and no digit or comma in its plain text) becomes the Brazilian paragraph |
| Rewrite.ExampleFound | app2.py:215 | `findall` on "34.56 1,234.56" gives "34.56" and "1,234.56" |
| Rewrite.AsWrittenCorruptsLongerAmount | app2.py:217-219 | on "34.56 1,234.56" the code as written gives "34,56 1,234,56", and the per-match rewrite gives "34,56 1.234,56" |
| Rewrite.AdjustText | app2.py:215-219 | one paragraph is rewritten as the code does it (`AsWritten`), and left alone when nothing is found |
| Rewrite.AdjustDocument | app2.py:214-219 | every paragraph of the document becomes `AsWritten` of its old text, and nothing else changes |
| Text.SplitOn | app2.py:271 | `split("\n")` gives at least one part, no part holds the separator, and joining the parts gives the text back |
| Text.ReplaceCharIsMap | app2.py:78 | replacing one character by another maps the text character by character |
| Text.NatToString | app2.py:90 | `str(n)` is a digit string without a leading zero whose value is n |
| Text.DigitsValueInjective | app2.py:114 | two digit strings of the same length and value are equal |

## Left out

- I/O is not modelled: pdfplumber opening and `extract_text`, the temporary files, reading and saving the DOCX, and reading the glossary file. Page text, paragraphs and the glossary are inputs. A page whose text is absent or empty has no lines.
- The Streamlit UI, forms, checkboxes, download buttons and session state are not modelled. The user's threshold and selected descriptions are inputs. An empty selection keeps the previous state, which is UI state and is left out.
- DOCX and FPDF rendering (fonts, widths, colours, `PDFBasico`, `df_to_docx_bytes`) is left out. Only the cell texts, the bold flags and the paragraph-text rewrite are modelled.
- `Glossary.BestScore`: `fuzz.ratio` is a parameter, any function into 0..100. `rapidfuzz` itself is foreign code.
- The glossary lines are used as read, without trimming, as the source does.
- The slider scaling `int(thresh * 100)` is left out; the threshold is an integer.
- `Amounts.ParseFloat`: `float()` is modelled on its decimal grammar only. Exponents, inf, nan, underscores and non-ASCII digits are treated as failures.
- `Amounts.EnUsFormat` reads values as exact reals. Binary floating-point rounding and precision loss are left out. Rounding is half-even on the exact value.
- `Totals.ColumnSumPermutation`: the order-independence of the sum holds for exact reals. The floating-point sum that pandas computes can differ in its last bits between two orders of the rows.
- Character classes are narrower than Python's Unicode ones. `\d`, `isdigit()`, `int()`, `[A-Z]` and `str.upper()` are ASCII only. The word characters of `\b` are the ASCII letters, digits and '_', plus the Latin-1 letters and number signs; characters above U+00FF never count. `\s` and `str.split()` use Python's whitespace list.
- `Rewrite.AdjustDocument` sees only the body paragraphs (python-docx `doc.paragraphs`, app2.py:214). The amounts that `df_to_docx_bytes` writes into table cells (app2.py:146-184) are never visited, so the totals stay in the en-US convention in the DOCX. The one body paragraph with digits is the heading with the NIT (app2.py:617). The pass rewrites that heading like any other paragraph, so a NIT such as "123.45678.90-1" is found as "123.45" and "678.90". The document layout (headings, tables, cells) is not modelled: the paragraphs are an input.
- `Rewrite.AdjustEnUs`: the round trips use only `ConvertsEnUs` of the converter. `Amounts.FormatValorBrlConverts` proves that `formatar_valor_brl` has it.
- `Totals.InsertTotals` requires well-formed rows, a DESCRIÇÃO column, and a value column other than DESCRIÇÃO. The source always calls it on the four report columns with "DESCONTOS".
- `Binder.BindDates` returns the new rows as a value, not as an in-place `.at` update on a DataFrame.
- `Totals.BlankMarkers` does the same for the `.loc` loop.
- `Competency.Tabulate` models the `strptime` failure on year 0000 as an error result. The exception itself, which escapes `main`, is left out.
- Records before the first "Rubrica" header (segment 0) are not dropped. They keep the page's Data and reach the report, as the code does.
- Filename construction and the logo are left out.

## Findings

| source | as written | input that shows it | evidently intended | confidence | as-written member | corrected member |
|---|---|---|---|---|---|---|
| app2.py:217-219 | each found amount is replaced with `str.replace` over the whole paragraph, one after the other, so a shorter amount is also replaced inside a longer one found later, which then no longer matches | the paragraph "34.56 1,234.56" becomes "34,56 1,234,56" | each match is rewritten at its own position: "34,56 1.234,56" | not executed | Rewrite.AsWrittenCorruptsLongerAmount | Rewrite.AdjustParagraph |
