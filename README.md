# Expense tracker ledger, modelled in Dafny

This project models the expense ledger of a small desktop expense tracker
(`expense_tracker.py`). It leaves out the widgets, the SQLite connection and
the PDF library. The program keeps a table of expenses. Each row has an
auto-assigned key, a date, a category, an amount and a description. The
program:

- adds a row after checking the entries the user typed;
- shows the rows in an on-screen table, numbered 1..N;
- deletes the selected rows by their visible values;
- shows the sum of the amounts;
- exports the shown rows as a paginated PDF report.

Modules, one per part of the program:

- `Wrappers` (wrappers.dfy): `Option` and `Result`.
- `Ledger` (ledger.dfy): the row datatypes. It also holds the functions that say
  what the program's SQL statements do to the table: `Sum`, `RemoveMatching`,
  `Matching` and `Renumber`, with lemmas about them. The class `Store` is the table
  itself: a sequence of records, the next key, and a ghost set of every key
  handed out.
- `Amounts` (amounts.dfy): `ParseDecimal`, a reader of plain decimal notation.
  It is one concrete stand-in for Python's `float`.
- `Report` (report.dfy): the PDF layout. The document is the list of lines
  drawn, each with its page and its height. `Export` runs the cursor loop of
  `download_pdf`. The reference functions `RowCursor` and `TotalLine` specify
  that loop, and lemmas state what the layout promises.
- `Tracker` (tracker.dfy): the class `Tracker`, which holds the table, the rows
  of the on-screen table and the total label, plus the button handlers.
  `Valid()` states the invariant that holds between handlers: the screen shows
  the table renumbered from 1 together with its sum, and every stored row has a
  date and a category. `SessionTotal` and `SessionRefused` are two client
  sessions that replay worked examples: adding 10.50, 20.25 and 5.00 gives a
  total of 35.75, and refused adds change nothing.

Points where the model follows the code closely:

- The listing is the table's stored order. The code has no `ORDER BY`. The
  model proves that stored order is key order, because rows are only appended,
  with growing keys.
- `delete_selected` itself refuses an empty selection, so its callers need
  not check for one.
- The page break before the total happens when the cursor is below 100.
- The report prints the rows shown on screen together with the table's sum.

## Model

| member | source | states |
|---|---|---|
| Ledger.RemoveMatching | expense_tracker.py:68-72 | a row survives the delete statements of a selection exactly when its (date, category, amount, description) tuple equals none of the selected tuples; nothing is added |
| Ledger.Renumber | expense_tracker.py:52-53 | the shown rows are as many as the stored rows, and row i carries the number first+i and exactly the stored row's four visible values, whatever its key |
| Ledger.SumAppend | expense_tracker.py:39-44 | appending a row raises the sum of amounts by exactly its amount |
| Ledger.Matching | expense_tracker.py:68-72 | the rows the delete statements of a selection remove are exactly those whose visible tuple equals a selected one |
| Ledger.SumSplitsOnDelete | expense_tracker.py:68-79 | the sum before a delete is the sum after it plus the amounts of every deleted row, duplicates included |
| Ledger.RemoveNothing | expense_tracker.py:68-72 | deleting with no tuples leaves the table as it was |
| Ledger.RemoveInSteps | expense_tracker.py:68-73 | issuing the delete statements one tuple at a time has the same effect as deleting all selected tuples at once |
| Ledger.RemoveSplits | expense_tracker.py:72 | deletion acts on each part of the table separately, so the surviving rows keep their relative order |
| Ledger.RemoveKeepsOrder | expense_tracker.py:13 | deletion keeps the rows in strictly increasing key order, so keys stay unique |
| Ledger.InsertThenList | expense_tracker.py:39-53 | listing right after an insert shows the earlier rows unchanged, then the inserted values, numbered one past them |
| Ledger.Store.constructor | expense_tracker.py:9-20 | opening the table keeps the saved rows, and the next key is one past the largest key used so far |
| Ledger.Store.Insert | expense_tracker.py:39-41 | appends exactly one row with the given values and a key above every key ever handed out; the older rows are untouched |
| Ledger.Store.SelectAll | expense_tracker.py:50-51 | yields every stored row in stored order |
| Ledger.Store.DeleteWhere | expense_tracker.py:72 | removes every row whose visible tuple equals the given one and keeps the key counter |
| Ledger.Store.SelectSum | expense_tracker.py:77-78 | SQL NULL exactly when the table is empty, otherwise the sum of the amounts |
| Amounts.ParseDecimal | expense_tracker.py:33-37 | accepts only text made of digits, at most one point and a leading sign, with at least one digit; text of digits alone reads as its decimal value |
| Amounts.LettersAreNotAmounts | expense_tracker.py:33-37 | ParseDecimal refuses any text containing a lower-case letter, such as "abc" |
| Amounts.MinusNegates | expense_tracker.py:34 | a leading minus reads as the negation of the amount the rest writes, and is refused when the rest is refused |
| Amounts.PlusKeeps | expense_tracker.py:34 | a leading plus reads as the amount the rest writes |
| Amounts.NegativeDigits | expense_tracker.py:34 | a minus followed by digits, such as "-5", reads as the negated digits |
| Amounts.TwoPointsRefused | expense_tracker.py:33-37 | "1.2.3", with a second point, is refused |
| Amounts.PointNotation | expense_tracker.py:34 | digits, a point and digits read as the whole part plus the fraction digits over the matching power of ten; either part may be empty, as in ".5" or "5.", but not both |
| Amounts.CentsNotation | expense_tracker.py:34 | an amount written with two decimals reads as its whole part plus its hundredths |
| Amounts.ReadsTenFifty | expense_tracker.py:34 | "10.50" reads as 10.5 |
| Amounts.ReadsTwentyTwentyFive | expense_tracker.py:34 | "20.25" reads as 20.25 |
| Amounts.ReadsFive | expense_tracker.py:34 | "5.00" reads as 5.0 |
| Report.Export | expense_tracker.py:88-130 | no document for no rows; otherwise the title, the headings, one line per row in input order at that row's cursor, and the total line last, with the page count one past the total line's page |
| Report.CursorInBounds | expense_tracker.py:106-118 | every row is drawn, and the cursor after every row lies, between 70 and height-50 |
| Report.BreakExactlyWhenBelowMargin | expense_tracker.py:115-118 | a new page starts after a row exactly when the lowered cursor is below 70; it then restarts at height-50, and otherwise moves down 20 on the same page |
| Report.RowsInOrder | expense_tracker.py:108-118 | pages never go back, and rows sharing a page are 20 apart in input order |
| Report.CursorClosedForm | expense_tracker.py:106-118 | the first page holds 32 rows from height-100 down; every later page holds 34 rows from height-50 down |
| Report.TotalAfterRows | expense_tracker.py:125-130 | the total line lies below the last row on the same page or on a later page, at a height of at least 80 |
| Report.TotalOnce | expense_tracker.py:120-130 | the total line appears exactly once in a report, as its last line |
| Report.MorePagesIffThirtyRows | expense_tracker.py:106-127 | a report has more than one page exactly when it has at least 30 rows |
| Tracker.Validate | expense_tracker.py:29-37 | an empty date, category or amount is a missing field, whatever the amount says; only then is an amount that does not parse refused as not numeric; otherwise the parsed amount; the description may be empty |
| Tracker.SelectionDeleted | expense_tracker.py:64-72 | after deleting a selection of the renumbered table, a stored row survives exactly when its visible tuple differs from that of every selected row: each selected row goes, together with every row that looks the same |
| Tracker.Tracker.constructor | expense_tracker.py:183 | start-up loads the saved table, so the screen shows it renumbered from 1 together with its sum |
| Tracker.Tracker.QueryTotal | expense_tracker.py:77-79 | the sum of the stored amounts, and 0.0 for an empty table |
| Tracker.Tracker.UpdateTotal | expense_tracker.py:76-80 | the total label becomes the sum of the stored amounts; nothing else changes |
| Tracker.Tracker.ShowTotalMessage | expense_tracker.py:82-86 | the reported total is the sum of the stored amounts, 0.0 when there are none |
| Tracker.Tracker.LoadExpenses | expense_tracker.py:46-55 | the on-screen rows become the stored rows in order, numbered 1..N, and the label their sum |
| Tracker.Tracker.AddExpense | expense_tracker.py:23-44 | the refusals of Validate leave table, screen and label unchanged; a valid add appends exactly one row with the given values and the parsed amount, under a key above every key ever used; the older rows stay and the total rises by the amount |
| Tracker.Tracker.DeleteSelected | expense_tracker.py:63-74 | an empty selection changes nothing; otherwise the table is exactly the old rows whose visible tuple matches no selected row, duplicates included, in their old order; the key counter is kept and the screen is reloaded |
| Tracker.Tracker.DownloadPdf | expense_tracker.py:88-133 | no document when the table is empty; otherwise the report of the shown rows with the table's sum as total |

## Left out

- Widgets, entry fields, `clear_fields`, message boxes, and the tree view's item handles are not modelled. A selection is given as a sequence of positions in the on-screen table; the message boxes appear as the results of the handlers.
- SQLite is an in-memory sequence of records. The database file, `commit`, the SQL text and failures of the disk are not modelled. The table saved by an earlier session is given to the constructor together with its largest key.
- Amounts are exact `real` numbers, so floating-point rounding in the sum and in `float` is not modelled.
- Python's `float` is the parameter `parse` of `AddExpense` and `Validate`, so their contracts hold for any conversion into finite numbers. `ParseDecimal` accepts only plain decimal notation. It refuses some inputs that `float` accepts: exponents, `inf`, `nan`, surrounding spaces, underscores, and decimal digits outside ASCII (such as Arabic-Indic or full-width digits).
- Tracker.Validate and Tracker.Tracker.AddExpense: `parse` stands for `float` only on inputs whose result is a finite number. `float` also reads "nan" and "inf", which a `real` cannot hold. A NaN amount would be stored as SQL NULL and skipped by the sum, and no `amount=?` comparison could match it, so it could never be deleted. An infinite amount would make the total infinite. Non-finite amounts are not modelled.
- Text formatting (`str(amount)`, `:.2f`, the rupee sign) is not modelled. Report lines carry the values they print, not their text.
- The tree view converts the types of the values it stores, which the `amount=?` comparison sees. The model compares visible tuples by exact equality instead.
- Fonts, the x positions of the columns (200 for the title; 50, 150, 300 and 400 for the columns), `showPage`, `save`, and the output path built from `os.getcwd` are not modelled. A document is its list of lines and its page count.
- Tracker.Tracker.constructor: start-up assumes the saved table was written by `add_expense`, so every saved row has a date and a category; `load_expenses` itself would show any row the database holds.
- Ledger.Store.constructor: the ghost set of keys handed out before start-up holds only the keys of the saved rows. Keys of rows deleted in an earlier session are covered only by the key counter.
- Tracker.Tracker.DownloadPdf reads the total before it lays out the rows, where the code reads it after. Nothing changes the table in between, so the result is the same.
