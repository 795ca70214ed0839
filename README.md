# Expense and debt dashboards — the data rules, verified

Two Streamlit dashboards read a Google Sheet and show figures drawn from it:

- `Controle_de_Despesas.py` is the expense dashboard. Its sheet holds the company's bills (`contas`) and the personal expenses (`pessoal`) side by side.
- `home.py` is the debt dashboard. Its sheet holds the instalments of three debts, each with a status column.

Most of both scripts is layout and chart configuration. The rest is a chain of small data rules, and those are what this Dafny project models and proves things about:

- the Brazilian currency parsers and the fallback currency formatters;
- reshaping the raw sheet into tables: skipping leading rows, promoting a header row, dropping all-empty columns, splitting by position, dropping rows without a `Nome`, renaming repeated labels, and selecting columns by substring;
- the period filter, the category filter with its `Todas` choice, the three-way bill status, and the month labels with their Portuguese month names;
- the aggregates: group sums, the largest group with its `N/A` fallback, the running total, the label-placement threshold, and the per-debt totals with their percentage.

A spreadsheet cell is `Cell = Option<string>`, where `None` stands for pandas' `NaN`. A table is a sequence of rows of cells. Amounts are Dafny `real`s. The formatters take a whole number of cents (`Currency.Amount`), because the rounding of `:,.2f` is not modelled. A date is a validated day/month/year triple (`Dates.Day`), and an unreadable date is `None` (pandas' `NaT`). "Now" is a parameter (`Dates.Moment`). Exceptions that the scripts let escape, or catch in a handler around the whole page, are modelled as `Err`/`None` results.

Modules:

- `Wrappers` defines `Option` and `Result`.
- `Strings` covers `str.replace`, substring search, `strip` and digit strings.
- `Decimal` models Python's `float()` on plain decimal text.
- `Currency` holds the cleaning chain, digit grouping, separator swapping and the Brazilian notation.
- `Dates` covers `%d/%m/%Y` parsing and formatting, date order and `%B/%Y`.
- `Months` is `traduzir_mes`.
- `Frames` covers header promotion, `dropna(axis=1, how='all')`, column slices, relabelling, duplicate renaming and substring column selection.
- `Ordering` is string order and sorted distinct values.
- `Aggregates` covers sums, means, `groupby(...).sum()`, `idxmax`, `cumsum` and the label threshold loop.
- `Despesas` models `Controle_de_Despesas.py`.
- `Home` models `home.py`.

Behaviour of the code worth noting:

- `clean_monetary_value` has no `try`: an unparseable text raises instead of giving 0, so it is an `Err`.
- `groupby` drops missing keys, as pandas does by default. A bill without a category is in no group, and a person's expenses without a date are left out of the top-spender figure.
- The debt percentage has no guard for a zero total. It is `None` there, because Python gives `nan`/`inf` and the later `int()` raises. It is not 0.
- `convert_to_float` in `home.py` keeps the sign. Only `Controle_de_Despesas.py` takes absolute values.
- Repeated labels are renamed at every occurrence, the first included (`["A","B","A"]` becomes `["A_0","B","A_2"]`). The renamed labels can collide again (`Frames.RenameCollision`).

## Model

| member | source | states |
|---|---|---|
| Despesas.CleanMonetaryValue | Controle_de_Despesas.py:89-95 | A missing cell gives 0. A number gives its absolute value. A text loses `R$`, spaces and points, has `,` turned into `.`, and gives the absolute value of what `float()` reads. Unreadable text is an error. Every successful result is non-negative. |
| Despesas.CleanReadsConverted | Controle_de_Despesas.py:94-95 | Round trip: cleaning the text the fallback `convert_to_real` writes for any whole number of cents gives back its absolute value. The same holds for the signed Brazilian notation. |
| Despesas.CleanExample | Controle_de_Despesas.py:94-95 | `"R$ 1.234,56"` is cleaned to 1234.56. |
| Despesas.CleanRejectsForeign | Controle_de_Despesas.py:94-95 | A text holding an ASCII character that the cleaning neither removes nor rewrites (anything but `R`, `$`, `,`) and that `float()` never accepts makes the cleaning an error. |
| Despesas.Magnitude | Controle_de_Despesas.py:85-87 | The amount written by `convert_to_real` has the absolute value of the input as its value. |
| Despesas.ConvertToReal | Controle_de_Despesas.py:83-87 | The fallback `f'R$ {abs(v):,.2f}'` with `,` and `.` exchanged through `*` is exactly the Brazilian notation of the magnitude: `R$ `, points between groups of three digits, `,`, two decimals. |
| Despesas.ExampleText | Controle_de_Despesas.py:87 | 1234.56 is written `R$ 1.234,56`. |
| Currency.FormatThenSwap | home.py:44 | For any placeholder that is not a digit, sign or separator, formatting with `,`/`.` and swapping the two through the placeholder gives the Brazilian notation. |
| Currency.SwapGroup | Controle_de_Despesas.py:87 | Swapping separators turns digits grouped by `,` into the same digits grouped by `.`. |
| Currency.UngroupPoints | Controle_de_Despesas.py:94 | Removing every `.` from digits grouped by `.` gives back the digits. |
| Currency.NormalizeLeaves | Controle_de_Despesas.py:94 | After the cleaning chain no space and no comma is left. |
| Currency.ReadBrazilianText | Controle_de_Despesas.py:94-95 | `float()` of the cleaned Brazilian notation of an amount is that amount, sign included. |
| Decimal.ParseFloatLiteral | Controle_de_Despesas.py:95 | `float()` reads a signed literal `[-]whole.fraction` as the number it denotes. |
| Decimal.ParseFloatRejectsForeignChar | Controle_de_Despesas.py:95 | `float()` fails on a text holding an ASCII character that is no digit, point, sign, whitespace, `_`, or letter of `e`, `nan`, `inf`, `infinity`. |
| Months.TraduzirMes | Controle_de_Despesas.py:97-100 | The loop over the twelve entries leaves the text that replacing each English month name by its Portuguese one, in table order, produces. |
| Months.NoMonthUnchanged | Controle_de_Despesas.py:97-100 | A text that contains no English month name comes back unchanged. |
| Months.TranslateExample | Controle_de_Despesas.py:76-81 | `"January/2024"` becomes `"Janeiro/2024"`. |
| Months.TranslateMonthYear | Controle_de_Despesas.py:507-508 | The `%B/%Y` label of any valid date translates to its Portuguese month name, `/` and the four-digit year. |
| Frames.PromoteHeader | Controle_de_Despesas.py:108-111 | The first row becomes the labels and the remaining rows are the data. There is no header for an empty sheet. A uniform sheet gives a rectangular frame. |
| Frames.DropEmptyColumnsSpec | Controle_de_Despesas.py:112 | A column is kept exactly when some row holds a value in it. The kept columns keep their order, and their labels and every row's cells are the input's at those columns. No kept column is empty, and every present value of the input is still in its row. |
| Frames.KeptColumnsHaveValues | Controle_de_Despesas.py:112 | Every column left after dropping empty ones holds a value in some row. |
| Frames.DropAllWithoutRows | Controle_de_Despesas.py:112 | With no data row every column is empty, so every column is dropped. |
| Despesas.LoadData | Controle_de_Despesas.py:106-113 | An empty sheet has no header. Otherwise the header row leaves the data, the result is rectangular with one row fewer, every kept column holds a value, and the frame is the header-promoted sheet without its empty columns. |
| Frames.Relabel | Controle_de_Despesas.py:122-123 | Assigning names keeps the rows and labels column k with the k-th name. It fails when the count of names differs from the count of columns. |
| Despesas.Split | Controle_de_Despesas.py:118-123 | With at least ten columns, the bills are columns 0 to 5 and the personal expenses columns 7 to 9, row by row, under their fixed names. With fewer columns the renaming fails. |
| Despesas.WithNome | Controle_de_Despesas.py:126-127 | Keeps exactly the rows whose `Nome` is present. |
| Despesas.WithNomeKeepsOrder | Controle_de_Despesas.py:126-127 | The filter distributes over concatenation, so the surviving rows keep their order. |
| Despesas.CleanColumn | Controle_de_Despesas.py:130-131 | A column cleans when every cell cleans, and then each value is the cleaned cell and none is negative. |
| Despesas.ContaRows | Controle_de_Despesas.py:130-135 | Each bill takes its name, cleaned amount, parsed due and payment dates, payment form and category from its row. It fails when some amount does not clean. Amounts are non-negative. |
| Despesas.GastoRows | Controle_de_Despesas.py:131-136 | Each expense takes its name, cleaned amount and parsed date from its row. It fails when some amount does not clean. Amounts are non-negative. |
| Despesas.Tables | Controle_de_Despesas.py:118-136 | Fewer than ten columns is an error. The result is defined exactly when the split succeeds and both tables' rows with a `Nome` clean, and it is then those two tables. Both tables have no more rows than the sheet, and all their amounts are non-negative. |
| Despesas.TablesSpec | Controle_de_Despesas.py:118-136 | On a rectangular sheet, the tables are formed exactly when there are at least ten columns, every row with a bill name has a readable amount in column 1, and every row with an expense name has a readable amount in column 8. |
| Dates.ParseDate | Controle_de_Despesas.py:134-136 | A parsed `%d/%m/%Y` date is a calendar date inside pandas' timestamp range. |
| Dates.ParseDateCell | Controle_de_Despesas.py:134-136 | A missing cell is `NaT`. A present one is a date exactly when its text parses. |
| Dates.ParseFormattedDate | Controle_de_Despesas.py:318-319 | Reading back a date written as `%d/%m/%Y` gives the same date. |
| Despesas.PeriodFilter | Controle_de_Despesas.py:158-171 | With two dates picked, exactly the rows whose date lies between them, both included, are kept, and undated rows go. Otherwise the table is unchanged. |
| Despesas.PeriodFilterCounts | Controle_de_Despesas.py:164-168 | With two dates picked, each row occurs in the result exactly as often as in the input when its date is in the period, and not at all otherwise. |
| Despesas.PeriodFilterAppend | Controle_de_Despesas.py:164-168 | Filtering two runs of rows one after the other gives the filtered runs one after the other, so the kept rows keep their order. |
| Ordering.SortedDistinct | Controle_de_Despesas.py:175 | The result is strictly sorted and holds exactly the input's values. |
| Ordering.SortedUnique | Controle_de_Despesas.py:175 | Two strictly sorted lists with the same elements are equal. |
| Despesas.CategoryOptions | Controle_de_Despesas.py:175 | `Todas` first, then the distinct categories present, strictly sorted. |
| Despesas.CategoryOptionsIgnoreOrder | Controle_de_Despesas.py:175 | The options depend only on which bills there are, not on their order or repetition. |
| Despesas.CategoryFilter | Controle_de_Despesas.py:178-179 | `Todas` leaves the bills unchanged. Any other choice keeps exactly the bills of that category. |
| Despesas.CategoryFilterCounts | Controle_de_Despesas.py:178-179 | For a choice other than `Todas`, each bill occurs in the result exactly as often as in the input when it has that category, and not at all otherwise. |
| Despesas.CategoryFilterAppend | Controle_de_Despesas.py:178-179 | The category filter distributes over concatenation, so the kept bills keep their order. |
| Despesas.DueDateReread | Controle_de_Despesas.py:318-324 | A due date written as `%d/%m/%Y` and parsed again is the same date. |
| Despesas.StatusSpec | Controle_de_Despesas.py:320-328 | Pago exactly when a payment date is present. Pendente exactly when it is absent and the due day is after today. Vencido exactly when it is absent and the due day is today or earlier, or missing. |
| Despesas.MonthLabel | Controle_de_Despesas.py:506-508 | The `Mês` cell fails exactly when the date is missing, because `traduzir_mes` receives `NaN`. |
| Despesas.MonthLabelSpec | Controle_de_Despesas.py:506-508 | A present date is labelled with its Portuguese month name, `/` and its four-digit year. |
| Despesas.MonthLabels | Controle_de_Despesas.py:505-508 | The column fails exactly when some expense has no date. Otherwise it has one label per expense, each the expense's own label. |
| Despesas.LabelsAfterPeriodFilter | Controle_de_Despesas.py:158-168 | Once two dates are picked, every remaining expense is dated, so the month column can be computed. |
| Aggregates.GroupSums | Controle_de_Despesas.py:211 | One group per present key, in key order, each with the sum of its rows' amounts. Missing keys form no group. |
| Aggregates.GroupSumsTotal | Controle_de_Despesas.py:233 | The group sums add up to the amounts of the rows that have a key. |
| Aggregates.TopKeySpec | Controle_de_Despesas.py:211-217 | With no key the result is `("N/A", 0)`. Otherwise it is a present key with its sum, no key sums to more, and a tie goes to the first key in order. |
| Despesas.TopCategorySpec | Controle_de_Despesas.py:211-217 | The largest-spending category is one some bill carries, with its sum. No category sums to more, and a tie goes to the first category in sort order. It is `("N/A", 0)` without categories. |
| Aggregates.Mean | Controle_de_Despesas.py:205 | No mean for no values. Otherwise the mean times the count is the sum. |
| Despesas.PessoalFigures | Controle_de_Despesas.py:362-380 | The total is the sum of the amounts and the mean times the count is the total. Both are 0 without expenses. |
| Despesas.TopSpenderSpec | Controle_de_Despesas.py:389-411 | Over the dated expenses, the top spender has a dated expense. Nobody sums to more, and a tie goes to the first name. It is `("N/A", 0)` when nothing is dated. |
| Aggregates.LabelPlacements | Controle_de_Despesas.py:239-253 | Each bar gets `inside`/`white` exactly when it reaches 15% of the largest bar, and `outside`/`black` otherwise. |
| Aggregates.LargestInside | Controle_de_Despesas.py:239-248 | With non-negative bars, the largest bar is always labelled inside. |
| Aggregates.CumulativeSums | Controle_de_Despesas.py:478 | Each running total is the sum of the prefix up to it. The last equals the total, and with non-negative amounts the totals never decrease. |
| Despesas.InsertByDate | Controle_de_Despesas.py:477 | Inserting a dated expense keeps every expense dated and adds exactly that expense. |
| Despesas.InsertByDateSorted | Controle_de_Despesas.py:477 | Inserting into a date-sorted list keeps it sorted. |
| Despesas.SortByDate | Controle_de_Despesas.py:477 | Sorting dated expenses gives a date-sorted permutation with the same total. |
| Despesas.RunningTotal | Controle_de_Despesas.py:472-478 | Undated expenses are dropped and the rest are sorted by date, as a permutation. Each running total is the sum so far, the last equals the total of the dated expenses, and without negative amounts the totals never decrease. |
| Home.ConvertToFloat | home.py:29-37 | A missing cell gives 0. |
| Home.ConvertToFloatReadsReal | home.py:29-44 | Round trip: `convert_to_float` reads the text `convert_to_real` writes for any whole number of cents as the signed amount. |
| Home.ConvertToFloatAbsorbs | home.py:33-37 | Text holding an ASCII character that the cleaning leaves in place (anything but `R`, `$`, `,`) and that `float()` never accepts gives 0, because the failure is absorbed. |
| Home.ConvertToRealShadowed | home.py:19-24 | The first fallback, swapping through `*`, writes the Brazilian notation of the signed amount. |
| Home.ConvertToReal | home.py:40-44 | The overriding fallback, swapping through `_`, writes the same Brazilian notation, so the override changes nothing. |
| Frames.RenameDuplicatesSpec | home.py:55-56 | The label count is kept. A label that occurs once stays. One that occurs more often becomes `label_i` at every occurrence, where i is its position. |
| Frames.RenameExample | home.py:55-56 | `["A","B","A"]` becomes `["A_0","B","A_2"]`. |
| Frames.RenameCollision | home.py:55-56 | `["A_1","A","A"]` becomes `["A_1","A_1","A_2"]`, so renaming does not always give unique labels. |
| Frames.RenameDistinct | home.py:55-56 | Labels that are all present and contain no `_` are pairwise distinct after renaming. |
| Frames.Matching | home.py:59-66 | The selected positions are exactly the columns whose label contains the pattern, in order. It fails when a label is missing. |
| Home.Converted | home.py:59-66 | A cell under a column whose label contains `parcelas` but not `data de pgto` becomes `convert_to_float` of it. One under a label containing `data de pgto` but not `parcelas` becomes its parsed date. Under a label containing both, the float is refused by the date format, so the cell is `NaT`. Any other cell is unchanged. |
| Home.ApplyToColumns | home.py:60-66 | The selected columns are replaced cell by cell with the operation's result, and all other cells are unchanged. |
| Home.Cleaned | home.py:50-52 | The table is the sheet's rows after the header line `read_csv` consumes. A table of four rows or fewer has no header. Otherwise the result is the frame with the table's fifth row (the sheet's sixth line) as header and the rows after it as data, without its empty columns. It is rectangular, with five rows fewer than the table. |
| Home.CleanedSpec | home.py:50-52 | In terms of the table read below `read_csv`'s header line: a column is kept exactly when some row after the fifth holds a value in it. The labels are the fifth row's cells (the sheet's sixth line) at the kept columns, and data row i is table row i + 5 at those columns. |
| Home.RepeatedSelected | home.py:59-66 | A column selected by substring has a repeated label exactly when some present label containing the pattern occurs more than once. |
| Home.ProcessDataframe | home.py:47-71 | Without a header row, the result is the empty table. Otherwise it is the empty table exactly when a label is missing after renaming, or a label containing `parcelas` or `data de pgto` is repeated after renaming. In every other case the labels are the renamed ones, and every cell is its column's conversion of the input cell. |
| Home.DebtTotals | home.py:135-140 | The total is the column sum. `pago` and `pendente` are the sums over the rows whose status is exactly `PAGO` and `PENDENTE`. The percentage is defined exactly when the total is not 0, and then it times the total is `pago` times 100. |
| Home.SumWhereAppend | home.py:137-138 | A status sum over two runs of rows is the sum of their status sums. |
| Home.SumWhereUniform | home.py:137-138 | Rows all with the status give the whole column sum. Rows none with the status give 0. |
| Home.SumFront | home.py:136 | The sum taken from the front equals the column sum. |
| Home.DebtPartition | home.py:136-138 | The total is `pago` plus `pendente` plus the rows of any other status. |
| Home.DebtShareBounds | home.py:136-140 | With non-negative amounts, `pago` and `pendente` are non-negative and together at most the total, and the percentage lies between 0 and 100. |
| Home.DebtColumnsConverted | home.py:124-128 | Each debt's instalment column is converted to amounts, and its status column is left as text. |
| Home.ColumnAt | home.py:132-138 | A column is selected exactly when its label occurs once, and the position returned holds that label. |
| Home.ComputeTotals | home.py:130-140 | It fails exactly when some debt lacks its columns. Otherwise it gives three entries, each that debt's figures from its own columns. |
| Home.OverallWithinTotal | home.py:145-147 | When each debt's paid and pending figures fit in its total, the overall ones fit in the overall total. |
| Home.OverallShare | home.py:154 | The overall share is defined exactly when the overall total is not 0, and then it times the total is the overall paid figure times 100. |
| Home.Truncate | home.py:175 | `int()` truncates toward zero. |
| Home.Progress | home.py:175-176 | The progress is defined exactly when the percentage is defined and its truncation toward zero lies in 0..100, the range `st.progress` accepts once divided by 100. It is then that truncation: for a non-negative percentage, the whole number at most it and more than it minus 1. |
| Home.ProgressRefusesNegativeShare | home.py:175-176 | A paid refund of 100 against 200 pending gives -100 percent, so the bar is refused and the page falls to its error handler. |
| Home.ProgressBounds | home.py:175-176 | With non-negative instalments the bar is never refused: the progress is defined exactly when the total is not 0, and it is then a whole number from 0 to 100. |

## Left out

- Reading the sheet (`pd.read_csv` on the Google Sheets URL) and the five-minute `st.cache_data` memoisation are left out. They are network I/O and framework caching, so the models take the sheet's cells as a parameter.
- `Inicio.py` and the pages directory are static landing pages and are not part of this model.
- Streamlit layout, widgets, CSS and every Plotly figure are presentation only and are left out. That includes the charts and detail cards of `home.py` and the payment-form pie of `Controle_de_Despesas.py`.
- `locale.setlocale` and `locale.currency` are left out. They use process-global locale state inside a foreign library, so only the manual fallback formatters are modelled.
- Binary floating point is not modelled. Amounts are exact reals, and the formatters take whole cents, so the rounding of `:,.2f` is not modelled.
- `Decimal.ParseFloat` reads ASCII digits only. Python's `float()` also accepts other Unicode decimal digits (`float("٣")` is 3.0), so `Despesas.CleanMonetaryValue` and `Home.ConvertToFloat` differ from the source on such text. `Despesas.CleanRejectsForeign`, `Decimal.ParseFloatRejectsForeignChar` and `Home.ConvertToFloatAbsorbs` therefore speak only of ASCII characters.
- `float()`'s exponents, `_` separators, `nan` and `inf` are not modelled. `Decimal` reads plain decimal text only, and `Despesas.CleanRejectsForeign` and `Home.ConvertToFloatAbsorbs` exclude the characters those forms use.
- `pd.to_datetime(..., format='%d/%m/%Y', errors='coerce')` is modelled as day/month/year fields with one or two digits for day and month and four for the year, validated against the calendar and pandas' timestamp range. Any leniency beyond that is not modelled.
- `%B` is modelled with English month names, the C locale. The result under another process locale is not modelled.
- The date widget's default range and bounds (`min()`/`max()` of the due dates) are left out. The model takes the picked dates as a parameter, so the widget's defaults are not modelled.
- `str.capitalize` on group labels only changes what is displayed, so it is left out. So are the ascending and descending display sorts of the group sums.
- `Despesas.RunningTotal` does not fix the order of expenses with the same date, because `sort_values` is not stable by default. It is stated up to permutation.
- `Despesas.PessoalFigures` states the mean by the equation "mean × count = total" and does not model `NaN` for a table whose amounts are missing. Amounts are always cleaned to numbers before that point.
- `Despesas.LoadData` states value preservation through `Frames.DropEmptyColumnsSpec`, which it is defined by, rather than repeating it in its own contract.
- `Home.DebtTotals` gives `None` for a zero total where the source computes `nan` or `inf`. The source has no guard, and the later `int()` raises, so the page shows its error message.
- `Home.ConvertToFloat` states only the missing-cell case in its own contract. Its behaviour on text is stated by `Home.ConvertToFloatReadsReal` and `Home.ConvertToFloatAbsorbs`.
- `Home.ProcessDataframe` models three exceptions in the cleaning: no header row, a missing label reaching `'parcelas' in col`, and a selected label that the renaming left repeated, where `df[col]` is a table that `convert_to_float` or `to_datetime` refuses. `st.error` itself is output, so it is left out.
- `read_csv`'s type inference is not modelled: every cell is text or missing. A numeric header cell, where `'parcelas' in col` would also raise, is not modelled.
- The empty-table check of `home.py` (line 115) and the outer handler (lines 245-246) are modelled as the `None` results of `Home.ProcessDataframe`, `Home.ComputeTotals` and `Home.Progress`. `Home.Progress` covers both exceptions of the progress bar: `int()` of `nan`/`inf`, and `st.progress` refusing a percentage outside 0..100. They are not a separate function.
- `convert_to_real` of a `NaN` mean is not modelled: the formatters take whole cents, so `NaN` cannot reach them.
