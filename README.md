# Proposal and timetable PDFs — a verified model

This project models, in Dafny, the logic behind three Express routes of a
university scheduling service. The routes turn professor and timetable records
into PDF documents.

- `src/routes/propuesta-pdf.js` builds "propuesta" (movement proposal) pages. It
  has two sources:
  - records read from storage, grouped per career;
  - an uploaded CSV. The CSV text is parsed, its headers are mapped onto
    canonical field names through an alias table, the rows are grouped per
    worker number and then per career, and the result is one PDF, or a ZIP with
    one PDF per worker.
- `src/routes/horario-general.js` builds the general timetable. Schedule records
  are folded into one ledger entry per professor. Each entry holds one hour
  slot per appointment title and per semester. The entries are then laid out as
  PARCIAL and TOTAL rows over as many pages as needed.
- `src/routes/propuesta-pdf-helper.js` is the one-page "forma de movimientos"
  route. It shares the table layout of the proposal route: the negotiated
  widths of the flexible columns, the group-header row, the totals row and the
  clamped cells.

## Modules

| module | what it holds |
|---|---|
| `JsValues` | JavaScript values (`undefined`, `null`, numbers, strings) and the built-ins the routes rely on: `??`, `\|\|`, `trim`, `String`/`Number`, `padStart`, NFD accent stripping |
| `Normalize` | the field normalisers `pad2`, `toInt` (both variants), `normalizeCve`, `normalizeYear`, `inferPeriodo`, `semesterLabelFromStart`, `buildNombramiento` |
| `Plurality` | `mostFrequentNonEmpty` and its frequency table |
| `Buckets`, `Sorting` | the insertion-ordered `Map` grouping and the stable comparator sort the routes use |
| `CsvParse` | the `parseCSV` state machine |
| `CsvRows` | `rowsFromCSV`: header folding, the alias table, one record per non-blank line |
| `PdfRows` | `horarioToRow`, the template row, and `rowCsvToHorarioRow` |
| `ProposalPages` | `groupRowsByCarreraFromRedis`, `buildPagesFromCsvRecords`, the ZIP entries |
| `WorkerFiles` | worker grouping and numeric order of the CSV route, the `isZip` flag, `buildWorkerPdfFileName` |
| `Ledger` | `formatHorariosProfesores` |
| `Grid` | `splitEvenInt` and the span-aware `drawTable` of the timetable |
| `Pagination` | `calcRowHeight`, `ensurePage`, `drawRow` and `drawProfessor`, as a `Pdf` class whose page count and drawn rows change |
| `ProposalTable` | the proposal table: column widths, header runs, totals, `textClamp`, `multiLineCell`, cells, fallback rows |

Text measurement is a parameter of the model:
- `width` is PDFKit's `widthOfString`;
- `height` is `heightOfString` at a font size;
- `Metrics` holds the three heights `calcRowHeight` measures.

The `localeCompare(…, "es")` comparator is the parameter `after`, and the
sorting lemmas assume it is asymmetric.

## Model

| member | source | states |
|---|---|---|
| JsValues.Coalesce | src/routes/propuesta-pdf.js:26 | `a ?? b` is b exactly for null and undefined, a otherwise |
| JsValues.Or | src/routes/propuesta-pdf.js:1198-1199 | `a \|\| b` on strings is one of the two operands, and is non-empty when b is |
| JsValues.OrZero | src/routes/propuesta-pdf.js:536-538 | `x \|\| 0` is never NaN and keeps every other number |
| JsValues.AddCommutes | src/routes/horario-general.js:663-667 | number addition (NaN and infinities included) commutes, which makes the TOTAL column sums independent of the order of the titles |
| JsValues.AddAssociates | src/routes/propuesta-pdf.js:534-542 | number addition is associative, so a reduce can be split |
| JsValues.Trim | src/routes/propuesta-pdf.js:96 | `trim()` yields a string that neither starts nor ends with white space |
| JsValues.TrimStartRemovesSpaces | src/routes/propuesta-pdf.js:96 | trimming the start drops a prefix made of white space only |
| JsValues.TrimEndRemovesSpaces | src/routes/propuesta-pdf.js:96 | trimming the end drops a suffix made of white space only |
| JsValues.TrimIdempotent | src/routes/propuesta-pdf.js:96 | trimming twice is trimming once |
| JsValues.NatToStringRoundTrip | src/routes/propuesta-pdf.js:26 | the decimal numeral of n reads back as n |
| JsValues.NumberToStringRoundTrip | src/routes/propuesta-pdf.js:30-32 | `Number(String(x)) == x` for every integer, NaN and infinity |
| JsValues.TextOf | src/routes/propuesta-pdf.js:96 | `(v ?? "").toString()` is "" for null/undefined and the string itself for a string |
| JsValues.PadStart | src/routes/propuesta-pdf.js:99 | `padStart(n, c)` keeps a long string, otherwise left-fills with c to length n ending in the string |
| JsValues.UpperAsciiString | src/routes/horario-general.js:242-244 | the case folding of an `/…/i` match, character by character |
| JsValues.StripAccents | src/routes/propuesta-pdf.js:991-992 | NFD plus removing U+0300–U+036F leaves no combining mark |
| JsValues.StripAccentsAppend | src/routes/propuesta-pdf.js:991-992 | accent stripping works piece by piece |
| Normalize.Pad2 | src/routes/propuesta-pdf.js:26 | `pad2` is at least two characters, pads a short text with leading "0", keeps a long one |
| Normalize.Pad2RoundTrip | src/routes/propuesta-pdf.js:26 | a number below 100 pads to two digits that read back as that number |
| Normalize.ToIntStrict | src/routes/propuesta-pdf.js:27-34 | null/undefined, blank or "-" strings and non-finite values give the default; finite numbers and numeric strings give their value |
| Normalize.ToIntLoose | src/routes/horario-general.js:221-228 | the ledger `toInt` returns a number argument as it is and anything else as a finite number |
| Normalize.ToIntVariants | src/routes/horario-general.js:221-228 | the two `toInt`s differ exactly on non-finite numbers |
| Normalize.NormalizeCve | src/routes/propuesta-pdf.js:95-100 | blank iff the trimmed text is blank; four or more characters kept; shorter ones zero-padded to exactly four |
| Normalize.NormalizeCveIdempotent | src/routes/propuesta-pdf.js:95-100 | normalising a normalised code changes nothing |
| Normalize.NormalizeCveExample | src/routes/propuesta-pdf.js:95-100 | "17" becomes "0017" |
| Normalize.NormalizeYear | src/routes/propuesta-pdf.js:149-155 | the year is always 1900 or later |
| Normalize.NormalizeYearCases | src/routes/propuesta-pdf.js:149-155 | ≥1900 kept; 0–79 → 20xx; 80–99 → 19xx; anything else, or non-numeric, → 2000 |
| Normalize.NormalizeYearIdempotent | src/routes/propuesta-pdf.js:149-155 | normalising a normalised year changes nothing |
| Normalize.InferPeriodoEndFirst | src/routes/propuesta-pdf.js:159-160 | a present end year (end month) decides the period whatever the start year (start month) is |
| Normalize.InferPeriodoMixed | src/routes/propuesta-pdf.js:158-163 | year and month are read independently: an end year with only a start month gives the period of that year and that month |
| Normalize.SemesterYear | src/routes/horario-general.js:230-237 | years below 100 get 2000 added, others are kept, non-numeric years are 2000 |
| Normalize.YearRules | src/routes/horario-general.js:231-233 | the two year rules agree exactly on years that are missing, non-numeric, 0..79 or from 1900 on; they differ on negative years and on 80..1899 |
| Normalize.MonthRules | src/routes/horario-general.js:234-235 | the two half-year rules agree exactly on months that are missing, non-numeric or at least 1 (other than +Infinity); they differ on months at or below 0 |
| Normalize.LabelInjective | src/routes/horario-general.js:236 | two `YYYY-I`/`YYYY-II` labels are equal exactly when their years and halves are |
| Normalize.PeriodRulesCompare | src/routes/horario-general.js:230-237 | on a record with only start fields, `inferPeriodo` and `semesterLabelFromStart` give the same label if and only if both the year and the month fall where the rules agree |
| Normalize.SemesterLabelExample | src/routes/horario-general.js:230-237 | month 8 of year 24 is "2024-II" |
| Normalize.YearRulesDisagree | src/routes/horario-general.js:231-233 | the two routes read year 85 differently: 1985 for the proposal, 2085 for the timetable |
| Normalize.FirstQuotedCapital | src/routes/horario-general.js:240 | the capital of the leftmost `"X"` match, or none exactly when there is no match |
| Normalize.ContainsIgnoringCase | src/routes/horario-general.js:242-244 | `/pat/i.test(s)` holds iff the pattern occurs at some index, ignoring ASCII case |
| Normalize.NombramientoShape | src/routes/horario-general.js:239-247 | the title is `PROFESOR DE ASIGNATURA "X"` (X the first quoted capital, else A), plus ` INTERINO` exactly when the category says INT or the cause says INTER or OTRO NOMB |
| Normalize.TitleTrim | src/routes/horario-general.js:246 | the final `trim()` removes only the trailing space of a non-interim title |
| Plurality.MostFrequentNonEmpty | src/routes/propuesta-pdf.js:166-182 | the two loops return the first most frequent trimmed value that is neither "" nor "-" |
| Plurality.PickBest | src/routes/propuesta-pdf.js:173-181 | the selection loop keeps the first entry of maximal count |
| Plurality.KeyIndex | src/routes/propuesta-pdf.js:171 | `freq.get(s)` finds the only entry of s, or none exactly when s is absent |
| Plurality.BestIndex | src/routes/propuesta-pdf.js:175-180 | the chosen entry has a maximal count and every earlier entry a strictly smaller one |
| Plurality.CleanStep | src/routes/propuesta-pdf.js:168-172 | one counting turn bumps the cleaned value when it counts and leaves the table alone otherwise |
| Plurality.BestStep | src/routes/propuesta-pdf.js:175-180 | one selection turn replaces the best only on a strictly larger count |
| Plurality.BumpEntries | src/routes/propuesta-pdf.js:171 | `freq.set(s, n + 1)` raises s's entry, or appends `(s, 1)`, and leaves other entries alone |
| Plurality.TallyCounts | src/routes/propuesta-pdf.js:167-172 | every table entry is a counted value with its exact number of occurrences |
| Plurality.TallyDistinct | src/routes/propuesta-pdf.js:167-172 | no value has two entries |
| Plurality.TallyComplete | src/routes/propuesta-pdf.js:167-172 | every counted value that occurs has an entry |
| Plurality.TallyOrder | src/routes/propuesta-pdf.js:167-172 | the entries come in the order their values were first seen |
| Plurality.ModeBlank | src/routes/propuesta-pdf.js:166-182 | the result is "" exactly when no value is counted |
| Plurality.ModeIsMostFrequent | src/routes/propuesta-pdf.js:166-182 | a non-blank result occurs, and no value occurs more often |
| Plurality.ModeFirstOnTie | src/routes/propuesta-pdf.js:175-180 | on a tie the value seen first wins |
| Plurality.MostFrequentBlank | src/routes/propuesta-pdf.js:166-182 | on raw values, blank exactly when every value cleans to "" or "-" |
| Plurality.ModeExample | src/routes/propuesta-pdf.js:166-182 | a concrete tally: "Derecho" beats "Ingenieria", and "-" and "" are skipped |
| Sorting.SortBy | src/routes/propuesta-pdf.js:744 | sorting is a permutation of its input |
| Sorting.SortByKeeps | src/routes/propuesta-pdf.js:744 | sorting neither adds nor drops an element |
| Sorting.SortByOrdered | src/routes/propuesta-pdf.js:744 | under an asymmetric comparator the result is ordered |
| Sorting.InsertOrdered | src/routes/propuesta-pdf.js:744 | inserting into an ordered sequence keeps it ordered |
| Sorting.PermutationDistinct | src/routes/propuesta-pdf.js:1201-1203 | reordering never makes two entries share a key |
| Buckets.Find | src/routes/propuesta-pdf.js:668-671 | `m.has(k)` / `m.get(k)` find the first entry with key k, or none exactly when k is absent |
| Buckets.Dedup | src/routes/propuesta-pdf.js:644-646 | `new Set(xs)` holds each element of xs once and nothing else |
| Buckets.PutEntries | src/routes/propuesta-pdf.js:668-671 | `put` appends to an existing entry or adds `(k, [v])` at the end, and changes nothing else |
| Buckets.GroupAll | src/routes/propuesta-pdf.js:674-678 | the grouping loop builds the `GroupBy` map |
| Buckets.GroupByDistinct | src/routes/propuesta-pdf.js:667-677 | no key has two entries |
| Buckets.GroupBySelect | src/routes/propuesta-pdf.js:667-677 | each entry holds exactly the values of its key's elements, in input order |
| Buckets.GroupByComplete | src/routes/propuesta-pdf.js:667-677 | every key some element has gets an entry |
| Buckets.SelectHolds | src/routes/propuesta-pdf.js:667-677 | every element lands in the entry of its key |
| Buckets.GroupBySize | src/routes/propuesta-pdf.js:667-677 | the entries hold as many values as there are elements |
| Buckets.GroupByUnique | src/routes/propuesta-pdf.js:667-677 | elements with distinct keys get one single-value entry each, in input order |
| CsvParse.ParseCsv | src/routes/propuesta-pdf.js:933-980 | the character loop and final flush compute `Parse(text)` |
| CsvParse.ConsumeAppend | src/routes/propuesta-pdf.js:949-977 | scanning a then b is scanning a + b, unless b starts with a quote |
| CsvParse.QuotedFieldContent | src/routes/propuesta-pdf.js:951-964 | a quoted field reads back as its content: `""` is one quote, and commas, CR and LF stay in the field |
| CsvParse.QuotedFieldAlone | src/routes/propuesta-pdf.js:933-980 | an input that is one quoted field parses to that field, or to nothing when the field is empty |
| CsvParse.UnclosedQuote | src/routes/propuesta-pdf.js:951-964 | an unclosed quote takes the rest of the input into the field |
| CsvParse.UnclosedQuoteFlushed | src/routes/propuesta-pdf.js:975-978 | that field is flushed at the end as a one-field record |
| CsvParse.ConsumeRecord | src/routes/propuesta-pdf.js:963-971 | a line of plain fields and its LF or CRLF push exactly that record |
| CsvParse.LinesRoundTrip | src/routes/propuesta-pdf.js:933-980 | plain rows written with LF or CRLF after each record parse back unchanged |
| CsvParse.TextRoundTrip | src/routes/propuesta-pdf.js:933-980 | plain rows joined by LF parse back unchanged unless the last is a lone empty field |
| CsvParse.TrailingNewline | src/routes/propuesta-pdf.js:966-978 | a final LF after a non-empty line adds no empty record |
| CsvParse.CarriageReturnDropped | src/routes/propuesta-pdf.js:969-970 | outside quotes a CR is as if absent |
| CsvRows.Fold | src/routes/propuesta-pdf.js:988-994 | `norm(h)` leaves no underscore, hyphen or white space |
| CsvRows.FoldAppend | src/routes/propuesta-pdf.js:988-994 | folding works piece by piece |
| CsvRows.FoldWord | src/routes/propuesta-pdf.js:988-994 | a word of ASCII letters folds to its lower-case spelling |
| CsvRows.FoldSnake | src/routes/propuesta-pdf.js:988-994 | two ASCII words joined by `_` fold to both words in lower case |
| CsvRows.SameFoldSameField | src/routes/propuesta-pdf.js:1086-1089 | header spellings that fold alike map to the same canonical field |
| CsvRows.UnknownHeaderKept | src/routes/propuesta-pdf.js:1086-1089 | a header whose fold is not in the table is kept verbatim |
| CsvRows.UnderscoreKeysUnreachable | src/routes/propuesta-pdf.js:996-1084 | alias keys spelled with `_` can never match a folded header |
| CsvRows.NoNumTrabajadorKey | src/routes/propuesta-pdf.js:996-1089 | no header is ever stored under `num_trabajador` |
| CsvRows.WorkerHeaderExample | src/routes/propuesta-pdf.js:996-1090 | "Num_Trabajador" becomes `numTrabajador` |
| CsvRows.TeacherHeaderExample | src/routes/propuesta-pdf.js:996-1090 | "Profesor" becomes `profesor` |
| CsvRows.CodeHeaderExample | src/routes/propuesta-pdf.js:996-1090 | "CVE" becomes `cveAsignatura` |
| CsvRows.TheoryHeaderExample | src/routes/propuesta-pdf.js:996-1090 | "Teo" becomes `horasTeoricas` |
| CsvRows.HeaderKeys | src/routes/propuesta-pdf.js:986-1089 | one key per header cell: the trimmed cell, canonicalised |
| CsvRows.RowOf | src/routes/propuesta-pdf.js:1096-1100 | a record's keys are exactly the header keys |
| CsvRows.RowOfCell | src/routes/propuesta-pdf.js:1096-1100 | each key holds the cell of its last column, and a column past a short line reads "" |
| CsvRows.RecordsAllKept | src/routes/propuesta-pdf.js:1092-1102 | without blank lines every data line gives its record, in order |
| CsvRows.RecordsBlankDropped | src/routes/propuesta-pdf.js:1094 | blank lines give no record |
| CsvRows.RecordsAppend | src/routes/propuesta-pdf.js:1092-1102 | the records of a + b are those of a followed by those of b |
| CsvRows.RecordsKeys | src/routes/propuesta-pdf.js:1092-1102 | every record has exactly the header keys |
| CsvRows.BuildRow | src/routes/propuesta-pdf.js:1096-1100 | the inner loop builds `RowOf(keys, rec)` |
| CsvRows.CollectRecords | src/routes/propuesta-pdf.js:1092-1102 | the outer loop builds the records of the data lines |
| CsvRows.RowsFromCsv | src/routes/propuesta-pdf.js:983-1104 | `rowsFromCSV` is the records of the parsed, trimmed text |
| CsvRows.RowsOfText | src/routes/propuesta-pdf.js:983-1104 | rows of plain fields written as CSV come back as records keyed by the canonical header names |
| PdfRows.TrimmedText | src/routes/propuesta-pdf.js:200-201 | `(v ?? "").toString().trim()` is trimmed and keeps an already-trimmed string |
| PdfRows.Hours | src/routes/propuesta-pdf.js:194-196 | theory and practice go through `toInt`; the total defaults to their sum when missing |
| PdfRows.MovementOr | src/routes/propuesta-pdf.js:199 | the movement is the given type, or "A" when empty |
| PdfRows.HorarioToRow | src/routes/propuesta-pdf.js:185-219 | the movement cell is never empty and always trimmed |
| PdfRows.HorarioTextCells | src/routes/propuesta-pdf.js:199-217 | text cells come out trimmed; plan and group are printed as given |
| PdfRows.HorarioDateCells | src/routes/propuesta-pdf.js:186-192 | every date cell has at least two characters |
| PdfRows.HorarioDayDigits | src/routes/propuesta-pdf.js:186 | a day below 100 prints as two digits that read back as it |
| PdfRows.HorarioCodeWidth | src/routes/propuesta-pdf.js:210 | the subject code is empty or at least four characters |
| PdfRows.HorarioTotalDefault | src/routes/propuesta-pdf.js:196 | a missing total is theory plus practice |
| PdfRows.HorarioDefaultMovement | src/routes/propuesta-pdf.js:199 | a blank movement type becomes "A" |
| PdfRows.HorarioSubjectCode | src/routes/propuesta-pdf.js:210 | `claveAsignatura` is read only when `cveAsignatura` is null or missing |
| PdfRows.TemplateRow | src/routes/propuesta-pdf.js:683-709 | the template row takes `tipo ?? "A"` and the untrimmed text fields |
| PdfRows.TemplateAgreesWithHorario | src/routes/propuesta-pdf.js:683-709 | on trimmed records with a non-empty type, the template row is the `horarioToRow` row |
| PdfRows.TemplateKeepsBlankMovement | src/routes/propuesta-pdf.js:690 | on an empty type the two paths differ: the template keeps "" and `horarioToRow` writes "A" |
| PdfRows.First | src/routes/propuesta-pdf.js:1119-1132 | `first(...keys)` is the first present usable cell, or "" exactly when none is |
| PdfRows.FirstPrefersEarlier | src/routes/propuesta-pdf.js:1119-1132 | a usable cell under the first key wins |
| PdfRows.RowCsvToHorarioRow | src/routes/propuesta-pdf.js:1118-1186 | the movement is never empty, the code is empty or at least four characters, and dates have at least two characters |
| PdfRows.CsvTotalDefault | src/routes/propuesta-pdf.js:1160-1162 | a total that is blank under every alias becomes theory plus practice |
| PdfRows.CsvAgreesWithHorario | src/routes/propuesta-pdf.js:1118-1186 | on a record filling every canonical field with trimmed usable text, the CSV path builds the `horarioToRow` row |
| ProposalPages.ByCareerAsymmetric | src/routes/propuesta-pdf.js:744 | ordering pages by career keeps the comparator asymmetric |
| ProposalPages.Careers | src/routes/propuesta-pdf.js:638-643 | the careers listed are all non-empty |
| ProposalPages.DefaultCareer | src/routes/propuesta-pdf.js:648-651 | the default career is never empty |
| ProposalPages.CareerSet | src/routes/propuesta-pdf.js:644-652 | the career set is never empty |
| ProposalPages.TemplateSource | src/routes/propuesta-pdf.js:683-685 | the template's professor record is one of the worker's records |
| ProposalPages.RedisPage | src/routes/propuesta-pdf.js:715-742 | a page shows its bucket's career and rows, with a unit and a head that are never blank |
| ProposalPages.CollectRowBuckets | src/routes/propuesta-pdf.js:667-711 | the two bucket loops build `RowBuckets` |
| ProposalPages.CollectPages | src/routes/propuesta-pdf.js:714-743 | the page loop makes one page per bucket, in bucket order |
| ProposalPages.GroupRowsByCarreraFromRedis | src/routes/propuesta-pdf.js:636-746 | the function returns `RedisPages`: the buckets, the pages, then the sort by career |
| ProposalPages.BuildPagesDistinct | src/routes/propuesta-pdf.js:714-743 | pages built from a map with distinct keys have distinct careers |
| ProposalPages.BuildPagesComplete | src/routes/propuesta-pdf.js:714-743 | every key of the map gets a page |
| ProposalPages.SortedBucketPages | src/routes/propuesta-pdf.js:714-744 | the sorted pages are one per key, each showing its entry, in career order |
| ProposalPages.RedisPagesHoldSchedules | src/routes/propuesta-pdf.js:674-744 | with schedule records, each page holds exactly its career's rows in input order, careers are distinct and sorted, every record has a page, and no row is lost |
| ProposalPages.RedisPagesFromTemplates | src/routes/propuesta-pdf.js:681-744 | with no schedule records, each career of the set gets one page with one template row from its first professor record |
| ProposalPages.RedisPagesEmpty | src/routes/propuesta-pdf.js:636-746 | a worker with no records gets no page |
| ProposalPages.UnknownCareer | src/routes/propuesta-pdf.js:648-652 | with no career anywhere the only career is "desconocido" |
| ProposalPages.CsvCareer | src/routes/propuesta-pdf.js:1193 | a CSV record's career is never empty |
| ProposalPages.CsvTableRows | src/routes/propuesta-pdf.js:1220 | one table row per record, each from `rowCsvToHorarioRow` |
| ProposalPages.CsvPage | src/routes/propuesta-pdf.js:1205-1223 | a CSV page shows its career and records, with unit, head and period never blank |
| ProposalPages.CsvPages | src/routes/propuesta-pdf.js:1189-1226 | one page per career |
| ProposalPages.Interesado | src/routes/propuesta-pdf.js:1198-1199 | the holder is never empty |
| ProposalPages.BuildPagesFromCsvRecords | src/routes/propuesta-pdf.js:1189-1226 | the function returns `CsvPages` and `Interesado` |
| ProposalPages.SortedKeyPages | src/routes/propuesta-pdf.js:1201-1223 | the pages of the sorted keys show their entries, cover every key, and have distinct, ordered careers |
| ProposalPages.CsvPagesHoldRecords | src/routes/propuesta-pdf.js:1189-1226 | each page holds the rows of exactly its career's records in input order and is never empty; careers are distinct and sorted; every record has a page; no record is lost |
| ProposalPages.CsvPagesNotEmpty | src/routes/propuesta-pdf.js:1189-1226 | a worker with records gets at least one page |
| ProposalPages.ZipEntryNames | src/routes/propuesta-pdf.js:1373-1383 | one ZIP entry per worker |
| ProposalPages.ZipEntryName | src/routes/propuesta-pdf.js:1373-1383 | each entry is named after the holder the worker's own records name most often, and the worker number |
| WorkerFiles.GroupByWorker | src/routes/propuesta-pdf.js:1310-1316 | the grouping loop builds `ByWorker`, skipping records without a worker number |
| WorkerFiles.NamedMembers | src/routes/propuesta-pdf.js:1312-1313 | a record is kept exactly when its worker key is not empty |
| WorkerFiles.WorkerBuckets | src/routes/propuesta-pdf.js:1310-1316 | one entry per distinct non-empty worker, holding that worker's records in order, with every kept record counted once |
| WorkerFiles.WorkerFound | src/routes/propuesta-pdf.js:1310-1316 | every record with a worker number has an entry |
| WorkerFiles.CsvWorkerKey | src/routes/propuesta-pdf.js:1312 | on records from `rowsFromCSV` the worker is the trimmed `numTrabajador` cell |
| WorkerFiles.SortedWorkers | src/routes/propuesta-pdf.js:1348-1350 | the sorted workers are a permutation of the map's keys |
| WorkerFiles.WorkerAfterAsymmetric | src/routes/propuesta-pdf.js:1349 | `Number(a) - Number(b)` is an asymmetric comparator, NaN included |
| WorkerFiles.SortedWorkersAscending | src/routes/propuesta-pdf.js:1348-1350 | numeric worker numbers come out in ascending numeric order ("9" before "10") |
| WorkerFiles.QueryIsZipFirst | src/routes/propuesta-pdf.js:1324-1329 | the query's `isZip` wins over every other place |
| WorkerFiles.SinglePdfByDefault | src/routes/propuesta-pdf.js:1324-1334 | without a flag anywhere the route answers one PDF |
| WorkerFiles.ZipSpellings | src/routes/propuesta-pdf.js:1331-1334 | `true`, "ZIP" and "1" ask for a ZIP, and `false` does not |
| WorkerFiles.KeepAllowed | src/routes/propuesta-pdf.js:1267 | only `[a-zA-Z0-9_\- ]` characters remain |
| WorkerFiles.CleanAllowed | src/routes/propuesta-pdf.js:1263-1268 | a cleaned name has only allowed characters and no space at either end |
| WorkerFiles.CleanIdempotent | src/routes/propuesta-pdf.js:1263-1268 | cleaning twice is cleaning once |
| WorkerFiles.WorkerPdfFileName | src/routes/propuesta-pdf.js:1262-1273 | the file name is at least seven characters long |
| WorkerFiles.FileNameCharacters | src/routes/propuesta-pdf.js:1262-1273 | the name ends in ".pdf" and every other character is allowed |
| WorkerFiles.FileNameKeepsWorker | src/routes/propuesta-pdf.js:1262-1273 | a clean worker number appears verbatim after " - " |
| WorkerFiles.CleanAccentedName | src/routes/propuesta-pdf.js:1263-1268 | "Pérez" cleans to "Perez": the accent goes and the letter stays |
| WorkerFiles.FileNameOfAccented | src/routes/propuesta-pdf.js:1262-1273 | a name clean apart from one accented letter keeps its base letter in the file name |
| WorkerFiles.FileNameWithoutNumber | src/routes/propuesta-pdf.js:1271-1272 | a worker number with nothing left after cleaning is written "sin-numero" |
| Ledger.UpperAll | src/routes/horario-general.js:254 | upper-cases ASCII and Latin-1 small letters one for one and keeps every other character |
| Ledger.RosterCareer | src/routes/horario-general.js:265 | a roster career is never empty ("desconocido" at worst) |
| Ledger.BuildRoster | src/routes/horario-general.js:257-270 | the roster loop builds the three lookup tables of `RosterOf` |
| Ledger.IndexDomain | src/routes/horario-general.js:267-269 | a table holds exactly the non-empty keys of the roster |
| Ledger.IndexLatest | src/routes/horario-general.js:267-269 | a key maps to the career of the last roster entry with that key |
| Ledger.IndexValues | src/routes/horario-general.js:267-269 | every value in a table is some roster entry's career |
| Ledger.ResolveByRfc | src/routes/horario-general.js:280-283 | the folded RFC decides first |
| Ledger.ResolveByWorker | src/routes/horario-general.js:280-284 | failing that, the worker number decides |
| Ledger.ResolveByName | src/routes/horario-general.js:280-285 | failing both, the folded name decides |
| Ledger.ResolveUnknown | src/routes/horario-general.js:280-285 | a holder the roster does not know is "desconocido" |
| Ledger.ResolveFromRoster | src/routes/horario-general.js:280-285 | the career found is "desconocido" or some roster entry's, and never blank |
| Ledger.IndexOf | src/routes/horario-general.js:315 | `indexOf` is the first position of the label, or -1 exactly when absent |
| Ledger.SlotOf | src/routes/horario-general.js:315-316 | a listed label selects its slot; an unlisted one selects the first |
| Ledger.FindHolder | src/routes/horario-general.js:288 | `profMap.get(key)` finds the only entry of a holder, or none |
| Ledger.Upgrade | src/routes/horario-general.js:296-301 | an entry's career changes only from "desconocido" to a known career |
| Ledger.PostSubject | src/routes/horario-general.js:306-318 | every title bucket keeps exactly one slot per semester |
| Ledger.LedgerOf | src/routes/horario-general.js:273-319 | every title bucket of the result has one slot per semester |
| Ledger.PostRecord | src/routes/horario-general.js:273-318 | one turn of the main loop builds `Post` |
| Ledger.FormatHorariosProfesores | src/routes/horario-general.js:249-329 | the function returns `Format`: the roster, then one step per schedule record |
| Ledger.JoinedKeyInjective | src/routes/horario-general.js:287 | keying by the `name\|rfc\|worker` string is keying by the triple when names and RFCs hold no `\|` |
| Ledger.JoinedKeyCollision | src/routes/horario-general.js:287 | without that proviso two different holders share a key |
| Ledger.PostHolders | src/routes/horario-general.js:287-303 | a step keeps the entries' holders and appends the record's holder when new |
| Ledger.LedgerHolders | src/routes/horario-general.js:272-328 | one entry per distinct holder, in order of first appearance |
| Ledger.PostSubjectTitles | src/routes/horario-general.js:306-308 | posting to a title appends it to the holder's titles only when it is new, and keeps the others in place |
| Ledger.PostTitles | src/routes/horario-general.js:304-318 | one step appends the record's title to its own holder's titles when new, and leaves every other holder's titles alone |
| Ledger.LedgerTitles | src/routes/horario-general.js:306-324 | a holder's subjects come out one per distinct title, in order of first appearance among that holder's records |
| Ledger.EntryOfRecord | src/routes/horario-general.js:272-328 | each record's holder has exactly one entry |
| Ledger.LedgerCareers | src/routes/horario-general.js:280-303 | every entry carries its holder's resolved career |
| Ledger.PostCareer | src/routes/horario-general.js:296-301 | a step changes a career only from "desconocido" to a known one |
| Ledger.PostCell | src/routes/horario-general.js:306-318 | one step adds the record's hours to exactly its own (holder, title, semester) cell |
| Ledger.LedgerConserves | src/routes/horario-general.js:249-329 | each cell holds the `toInt` hours of exactly the records of that holder, title and selected semester, so no hours are lost or invented |
| Ledger.TallyUntouched | src/routes/horario-general.js:308 | a cell no record selects stays at zero |
| Ledger.TallyFinite | src/routes/horario-general.js:312-318 | whole-number hours give a whole-number sum |
| Grid.SplitEvenInt | src/routes/horario-general.js:94-106 | each width is `floor(total/n)` or one more, and widths never increase left to right |
| Grid.SplitEvenIntSum | src/routes/horario-general.js:94-106 | the widths add up to the total and differ by at most one |
| Grid.XsFrom | src/routes/horario-general.js:100-104 | each column starts at x0 plus the widths before it |
| Grid.Offsets | src/routes/horario-general.js:134-147 | the `cx` / `ry` loops compute `XsFrom` |
| Grid.ColWidths | src/routes/horario-general.js:129-132 | one width per column |
| Grid.RowHeights | src/routes/horario-general.js:141-144 | one height per row |
| Grid.Span | src/routes/horario-general.js:157-158 | a span is at least 1 and keeps a positive value |
| Grid.CoversLater | src/routes/horario-general.js:201-206 | a span only reaches cells after its own |
| Grid.MarkSpan | src/routes/horario-general.js:201-206 | marking a span records, in the skip matrix, exactly the cells it covers |
| Grid.DrawTable | src/routes/horario-general.js:108-209 | boxes come in row-major order, and a cell is drawn exactly when no earlier span covers it |
| Grid.SpanEndsOnBoundary | src/routes/horario-general.js:160-163 | a drawn box ends where the column (row) after its span begins, or at the grid's edge |
| Pagination.Ceil | src/routes/horario-general.js:354 | `Math.ceil`: the least integer not below x |
| Pagination.CalcRowHeight | src/routes/horario-general.js:333-355 | the row is at least 40 points, holds both blocks, and is the least whole height that does |
| Pagination.TotalRow | src/routes/horario-general.js:663-667 | the corrected TOTAL row has one column sum per semester slot |
| Pagination.TotalRowAt | src/routes/horario-general.js:663-667 | slot i of the corrected TOTAL row is the sum of slot i over the titles |
| Pagination.SingleTotal | src/routes/horario-general.js:663-667 | a single title's TOTAL row is its own PARCIAL row |
| Pagination.TotalRowAsWritten | src/routes/horario-general.js:663-667 | the TOTAL row as written always has four columns |
| Pagination.AsWrittenTruncates | src/routes/horario-general.js:663-667 | with four or more semester slots only the first four column sums are kept |
| Pagination.AsWrittenThrows | src/routes/horario-general.js:663-667 | with fewer than four slots the source throws |
| Pagination.FifthSemesterDropped | src/routes/horario-general.js:663-667 | with five semester slots, hours in the fifth never reach the TOTAL row |
| Pagination.ProfessorRows | src/routes/horario-general.js:638-679 | one PARCIAL row per title, then one TOTAL row |
| Pagination.ProfessorRowsAsWritten | src/routes/horario-general.js:591-593 | as written every PARCIAL and TOTAL row has exactly four value columns, and the rows exist exactly when every title has at least four semester slots |
| Pagination.DefaultListAsWritten | src/routes/horario-general.js:591-593 | with four semester slots the rows as written are exactly the corrected rows |
| Pagination.LongerListAsWritten | src/routes/horario-general.js:591-593 | with four or more slots each row as written is the corrected row cut to its first four columns |
| Pagination.ShorterListThrows | src/routes/horario-general.js:591-593 | with fewer than four slots and at least one title, drawing the rows as written throws |
| Pagination.ColumnSumPermutation | src/routes/horario-general.js:663-667 | a column sum depends only on the multiset of titles, not on their order |
| Pagination.TotalRowPermutation | src/routes/horario-general.js:663-667 | reordering the titles leaves the TOTAL row unchanged |
| Pagination.Pdf.constructor | src/routes/horario-general.js:770 | a new document has one page and no rows |
| Pagination.Pdf.EnsurePage | src/routes/horario-general.js:357-365 | a new page, with the cursor below the three-band header, exactly when the row would pass the bottom margin |
| Pagination.Pdf.DrawRow | src/routes/horario-general.js:557-636 | one row is drawn at the cursor, as tall as `calcRowHeight` says |
| Pagination.Pdf.FlowRow | src/routes/horario-general.js:643-659 | a row is placed, then the cursor passes it |
| Pagination.Pdf.DrawProfessor | src/routes/horario-general.js:638-679 | the rows drawn, the page count and the cursor are those of `Place` on the professor's rows, plus 14 points |
| Pagination.PlaceFlows | src/routes/horario-general.js:638-679 | each row is measured, placed at the cursor or at the top of a new page, and passed by its height |
| Pagination.RowsInBand | src/routes/horario-general.js:357-365 | rows that fit below the header never pass the bottom margin |
| Pagination.PagesGrow | src/routes/horario-general.js:357-365 | pages only grow, by at most one per row |
| Pagination.CursorAdvances | src/routes/horario-general.js:333-365 | on one page the cursor moves down at least 40 points per row |
| ProposalTable.FindIndex | src/routes/propuesta-pdf.js:544 | `findIndex` returns a column with the key, or -1 |
| ProposalTable.FindIndexFirst | src/routes/propuesta-pdf.js:544 | no earlier column has the key |
| ProposalTable.Clamp | src/routes/propuesta-pdf.js:265-267 | the result lies in [lo, hi] when that is non-empty, keeps n inside it, and is lo when the range is empty |
| ProposalTable.NegotiateFlex | src/routes/propuesta-pdf.js:401-424 | the subject/timetable negotiation computes `Flex` |
| ProposalTable.SetWidth | src/routes/propuesta-pdf.js:425-426 | `find(…).w = w` writes the first column with the key and nothing else |
| ProposalTable.SizeFrom | src/routes/propuesta-pdf-helper.js:240-274 | a fresh copy of the columns with both flexible widths written |
| ProposalTable.SizeColumns | src/routes/propuesta-pdf.js:372-426 | the sized column list of the proposal table |
| ProposalTable.SpanSplit | src/routes/propuesta-pdf.js:398-400 | every column counts once, as fixed or flexible |
| ProposalTable.BaseWidths | src/routes/propuesta-pdf.js:372-391 | the fixed columns take 538 points and the flexible ones start at 0 |
| ProposalTable.BaseKeys | src/routes/propuesta-pdf.js:372-391 | where `asig`, `hor`, `grupo`, `teo`, `pra` and `tot` sit among the columns |
| ProposalTable.FlexFillsRemaining | src/routes/propuesta-pdf.js:401-424 | with room left the flexible widths add up to exactly that room |
| ProposalTable.FlexMeetsMinimums | src/routes/propuesta-pdf.js:418-423 | from 520 points on both minimums hold |
| ProposalTable.FlexProportional | src/routes/propuesta-pdf.js:404-406 | from 573 points on the plain 65/35 split stands |
| ProposalTable.FlexNoRoom | src/routes/propuesta-pdf.js:408-410 | with no room the minimums are used |
| ProposalTable.FlexNarrow | src/routes/propuesta-pdf.js:411-417 | between 120 and 520 points the room is cut 320:200 with 60 points each at least |
| ProposalTable.FlexTiny | src/routes/propuesta-pdf.js:411-417 | below 120 points the subject column takes 60 and the timetable column the rest, possibly negative |
| ProposalTable.ShippedFlex | src/routes/propuesta-pdf.js:370-426 | on the shipped page the flexible columns get 160 and 99.89 points |
| ProposalTable.SizedSpansBox | src/routes/propuesta-pdf.js:397-426 | whenever the fixed columns leave room, the sized columns span the box exactly |
| ProposalTable.GroupHeaders | src/routes/propuesta-pdf.js:436-454 | the header row is a tiling of the columns into maximal runs of one group, each placed over its columns, ending at the right edge |
| ProposalTable.RunFrom | src/routes/propuesta-pdf.js:439-445 | the inner loop spans exactly the next columns that share the group |
| ProposalTable.ColumnUnderOneRun | src/routes/propuesta-pdf-helper.js:288-306 | every column sits under exactly one header cell |
| ProposalTable.RunsAscend | src/routes/propuesta-pdf-helper.js:288-306 | header cells go strictly left to right |
| ProposalTable.Hours | src/routes/propuesta-pdf.js:536-538 | `+r[key] \|\| 0` is never NaN and is 0 for a missing key |
| ProposalTable.TotalsAppend | src/routes/propuesta-pdf-helper.js:377-385 | totals over two batches of rows add up |
| ProposalTable.RowWithoutHours | src/routes/propuesta-pdf-helper.js:377-385 | a row without hour fields adds nothing |
| ProposalTable.TotalsUnderColumns | src/routes/propuesta-pdf.js:544-559 | when Teo., Prác. and Tot. follow Grupo, each sum sits at its own column's x |
| ProposalTable.ShippedTotalsLine | src/routes/propuesta-pdf-helper.js:389-409 | on the sized table the label spans the twelve columns before Grupo and the sums line up |
| ProposalTable.LongestFit | src/routes/propuesta-pdf.js:268-282 | the longest prefix whose ellipsis candidate fits, with no longer one fitting |
| ProposalTable.Clamped | src/routes/propuesta-pdf.js:268-282 | the whole text if it fits, otherwise a prefix followed by "…" |
| ProposalTable.ClampedFits | src/routes/propuesta-pdf.js:268-282 | the clamped text fits whenever "…" alone does |
| ProposalTable.ClampedLongest | src/routes/propuesta-pdf.js:268-282 | no longer prefix would have fitted |
| ProposalTable.FitsBelow | src/routes/propuesta-pdf.js:275-280 | under a monotone width, every shorter candidate fits when one does |
| ProposalTable.MissesAbove | src/routes/propuesta-pdf.js:275-280 | under a monotone width, no longer candidate fits when one does not |
| ProposalTable.TextClamp | src/routes/propuesta-pdf-helper.js:94-109 | the binary search returns "" for null, the text when it fits, and otherwise a fitting prefix plus "…"; under a monotone width this is `ClampText` |
| ProposalTable.FontFit | src/routes/propuesta-pdf.js:45-91 | the size counted down is the first whose text fits `h - 4`, else `minFont` |
| ProposalTable.MultiLineCell | src/routes/propuesta-pdf.js:45-91 | the font size is `FontChoice`, and the text is centred vertically |
| ProposalTable.FontChoiceLargest | src/routes/propuesta-pdf.js:45-91 | the chosen size is the largest in range whose text fits, or `minFont` when none does |
| ProposalTable.CellValue | src/routes/propuesta-pdf.js:500 | `r[key] ?? ""` is never nullish |
| ProposalTable.HelperCell | src/routes/propuesta-pdf-helper.js:355-361 | subject and timetable cells are clamped; the others are shown whole |
| ProposalTable.ProposalCell | src/routes/propuesta-pdf.js:500-522 | category and subject wrap; the timetable is clamped; the rest are shown whole |
| ProposalTable.RowsOrFallback | src/routes/propuesta-pdf-helper.js:569 | any row array, even an empty one, is kept; anything else gives the two example rows |
| ProposalTable.FallbackTotals | src/routes/propuesta-pdf-helper.js:527-569 | without a row array the totals read 6, 7 and 13 hours |

## Left out

- Storage and network are not modelled:
  - the Redis reads (`readJsonArray`, `fetchHorariosProfesores`);
  - the `csvUrl` download;
  - the logo fetches;
  - the request dispatch and the error responses of the routes.
  The model starts from the records those calls return.
- PDFKit drawing is not modelled: fonts, colours, lines, rectangles, page numbers and the footer and header blocks. Text measurements are parameters (`width`, `height`, `Metrics`). `Pagination.Pdf` records the placed rows instead of drawing them, and `Grid.DrawTable` records the boxes.
- The ZIP archiver and the PDF buffers are not modelled. The ZIP is modelled as its list of entry names (`ProposalPages.ZipEntryNames`).
- `getDateString` reads the clock, so it is not modelled.
- `localeCompare(…, "es")` is the comparator parameter `after`. The ordering lemmas assume only that it is asymmetric.
- `String.prototype.normalize("NFD")` is approximated by an accent table for the accented Latin letters Spanish uses. Letters outside that table are kept as they are.
- JavaScript numbers are modelled as integers, NaN and the two infinities. Fractional values and `Number` parsing of decimals, exponents and hex are not modelled, so hours are whole numbers.
- Page coordinates and widths are `real`s, without floating-point rounding. `Math.round` and `Math.ceil` are modelled exactly on reals.
- Ledger: holders are keyed by the (name, RFC, worker) triple rather than by the joined string. `Ledger.JoinedKeyInjective` shows the two agree when names and RFCs hold no `|`, and `Ledger.JoinedKeyCollision` shows they differ otherwise.
- Ledger.FormatHorariosProfesores: the model requires a non-empty semester list.
  - The route passes the semester list (line 800), which is never empty: it has four default labels and is replaced only by a non-empty list (lines 212-218).
  - With an empty list the source throws on the first schedule record.
  - With no schedule records the source returns an empty list, which the model does not cover.
- ProposalPages.CareerOf: reads a non-string career as its text. The source's `.trim()` would throw on a number.
- The `/propuesta` and `/propuestas-all` route bodies are not modelled: their query parsing and Redis keys are storage glue. Their page building is `groupRowsByCarreraFromRedis`, which is modelled.
- The `/horario-general-pdf` route body is modelled only through `drawProfessor`: the logo fetch, the page header, the "SIN DATOS" placeholder professor (lines 801-812) and the loop over professors are left out.
- The fill/colour/text calls of the timetable `drawTable` and `drawThreeRowHeader` are not modelled. Only the geometry is kept: which cells are drawn, and where and how large each box is.
- Ledger.UpperAll: upper-cases only `a`-`z` and the Latin-1 small letters U+00E0-U+00FE. JavaScript's `toUpperCase()` also turns `ß` into "SS", `ÿ` into `Ÿ`, `µ` into `Μ` and upper-cases every cased letter outside Latin-1, so names such as "Weiß" and "WEISS" can key differently in the model than in the source.
- JsValues.Lower: lower-cases only `A`-`Z` and the Latin-1 capitals U+00C0-U+00DE, for the header fold at `src/routes/propuesta-pdf.js:990`. Other cased letters are kept as they are, unlike `toLowerCase()`.
- Pagination.Pdf.DrawProfessor: draws the corrected layout, one value column per semester slot and a TOTAL row over all slots. The source's `drawRow` always fills four columns and throws when a title has fewer than four slots. `Pagination.ProfessorRowsAsWritten` models the rows as written. `Pagination.DefaultListAsWritten` shows the two layouts are the same for the default four-label list, and `Pagination.LongerListAsWritten` and `Pagination.ShorterListThrows` cover the other lengths.
- Pagination.Pdf.DrawRow: records the row's values with all their columns. The source reads only `values[0..3]` (lines 591-593).
- WorkerFiles.SortedWorkers: for a worker number that is not numeric the comparator `Number(a) - Number(b)` gives NaN, which the sort reads as 0. The comparator is then inconsistent and JavaScript's resulting order is implementation-defined. The model fixes the order its insertion sort gives; its permutation guarantee holds either way, and its ascending guarantee covers only numeric worker numbers.

## Findings

| source | as written | input that shows it | evidently intended | confidence | as-written member | corrected member |
|---|---|---|---|---|---|---|
| src/routes/horario-general.js:591-593 | `drawRow` reads exactly four value slots per row (`splitEvenInt(…, 4)` at line 558, `values[i]` for `i < 4`), the header has four sub-columns (lines 530-535) and the TOTAL row sums `[0,1,2,3]` (lines 663-667) | `SEMESTRES_JSON` (lines 212-218) accepts a semester list of any non-empty length, and each title gets one slot per label. With five labels the fifth semester's hours appear in no PARCIAL row and never reach the TOTAL row. With three, `values[3]` is undefined and the route throws at line 593 on the first PARCIAL row | one value column per semester label, or a semester list restricted to four labels | not executed | Pagination.ProfessorRowsAsWritten (Pagination.TotalRowAsWritten, Pagination.AsWrittenTruncates, Pagination.AsWrittenThrows, Pagination.FifthSemesterDropped, Pagination.LongerListAsWritten, Pagination.ShorterListThrows) | Pagination.ProfessorRows (Pagination.TotalRow, Pagination.TotalRowAt, Pagination.SingleTotal, Pagination.DefaultListAsWritten) |
