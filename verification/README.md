# Sarcoma registry form: the record logic

This project models the part of `streamlit_app.py` that is pure logic. The file is a
Streamlit form for a prospective registry of patients who receive preoperative
radiotherapy for sarcoma. The model covers:

- the whole-month interval rule `calculate_months`;
- the age-in-completed-years rule the "Calculate" button applies;
- the two accessors that read a stored record back into the form: `safe_get` and
  `safe_get_list`;
- the store, an append-only spreadsheet of records keyed by MRN (medical record
  number), with its lookup `get_patient_data` and its append `save_data`;
- how "Save Information" assembles a record. The MRN is "N/A" when empty. The age
  and month counts come from the session. An event's month count is stored only
  when its answer is "Yes" and "N/A" otherwise;
- the save gate, which refuses to save before anything was calculated.

Modules follow that structure:

- `Strings` models the Python string operations the code relies on: `strip()` over
  Python's whitespace set, `replace(c, "")`, `split(",")` and `str(int)`.
- `Dates` models dates as (year, month, day), plus the month and age rules.
- `Cells` models cells, rows, `safe_get`, `safe_get_list` and the list text that
  Python's `str(list)` produces.
- `Store` models the table, MRN normalisation, lookup and append.
- `Form` models Calculate, the record built on save, and the save gate.

A row is a map from column name to `Option<Value>`. `None` stands for a NaN cell,
and a column a row does not carry reads the same way, because pandas fills absent
columns with NaN. The table is the sequence of rows the spreadsheet held. When
there is no file yet, the table is empty.

`calculate_months` uses only the year and the month of its two dates, so the
count is a difference of month positions. It is therefore exactly antisymmetric
and additive over a middle date (`Dates.MonthsAlgebra`).

`safe_get_list` deletes every bracket and quote and splits at every comma, so an
item that contains a comma comes back as several items (see "## Findings"). The
`ListReader` module holds the reader the form needs, which takes each item from
between its quotes. The store's round trip for list columns is stated with that
reader.

## Model

| member | source | states |
|---|---|---|
| Dates.CalculateMonths | streamlit_app.py:10-11 | the count is the end's month position minus the start's (year*12 + month - 1); negative when the end is in an earlier month |
| Dates.MonthsIgnoreDay | streamlit_app.py:10-11 | changing the day of either date never changes the count |
| Dates.MonthsAlgebra | streamlit_app.py:10-11 | zero within one calendar month, exactly antisymmetric, and additive over a middle date |
| Dates.CountMonthSteps | streamlit_app.py:10-11 | walking the calendar one month at a time from start to end, rolling the year at December and January, takes exactly the computed number of steps (negative steps backwards) |
| Dates.MonthExamples | streamlit_app.py:10-11 | 2020-01-15 to 2021-03-01 is 14; Jan 31 to Feb 1 is 1; Jan 1 to Jan 31 is 0 |
| Dates.Age | streamlit_app.py:448-450 | the result is the number of birthdays reached: that anniversary is on or before today and the next one is after it; non-negative when birth is not after today |
| Dates.AgeUnique | streamlit_app.py:448-450 | any n whose anniversary is reached while the next is not equals the computed age |
| Dates.AgeStepsOnBirthday | streamlit_app.py:448-450 | the age becomes n on the n-th birthday and is n - 1 on every earlier day of that year |
| Dates.AgeMonotone | streamlit_app.py:448-450 | a later day never gives a smaller age |
| Dates.AgeExamples | streamlit_app.py:448-450 | born 2000-06-15: 23 on 2024-06-14, 24 on 2024-06-15 |
| Strings.Strip | streamlit_app.py:40 | the result has no whitespace at either end and is no longer than the input |
| Strings.StripIsSlice | streamlit_app.py:40 | the result is a contiguous slice of the input, and everything cut away before and after it is whitespace |
| Strings.Remove | streamlit_app.py:40 | the deleted character no longer occurs; a string without it is unchanged |
| Strings.RemoveCounts | streamlit_app.py:40 | every other character is kept as often as it occurred, so the result is shorter by exactly the number of deleted occurrences |
| Strings.RemoveAppend | streamlit_app.py:40 | deleting distributes over concatenation, so the kept characters stay in their order |
| Strings.Split | streamlit_app.py:40 | at least one piece, no piece contains the separator, and joining the pieces with the separator gives the input back |
| Strings.SplitJoin | streamlit_app.py:40 | splitting the join of separator-free pieces gives exactly those pieces back |
| Strings.DecimalText | streamlit_app.py:46 | the decimal text of an integer is non-empty, has no surrounding whitespace, starts with a minus exactly when the integer is negative, and its digits denote the integer |
| Strings.DecimalTextInjective | streamlit_app.py:46 | two integers have the same decimal text exactly when they are equal, so two numeric MRNs match exactly when their values are equal; a query matches a numeric MRN only when it is that number's canonical decimal text |
| Cells.SafeGet | streamlit_app.py:31-33 | the stored value when the column holds one; the default when the column is absent or NaN |
| Cells.SafeGetAfterWrite | streamlit_app.py:31-33 | a value written into a column reads back unchanged whatever the default; other columns read as before |
| Cells.Unbracket | streamlit_app.py:40 | no `[`, `]` or `'` is left |
| Cells.UnbracketAppend | streamlit_app.py:40 | deleting the brackets and quotes distributes over concatenation, so what is kept stays in its order |
| Cells.UnbracketCounts | streamlit_app.py:40 | every character other than `[`, `]` and `'` is kept as often as it occurred |
| Cells.Compact | streamlit_app.py:40 | never more items than pieces, and every item has no surrounding whitespace |
| Cells.CompactPiece | streamlit_app.py:40 | wherever a piece stands, an empty piece yields no item and any other piece yields its stripped text in its place |
| Cells.CompactBlankPiece | streamlit_app.py:40 | a whitespace-only piece yields an empty item in its place |
| Cells.DecodeList | streamlit_app.py:40 | every item is trimmed and free of `[ ] ' ,`; there are never more items than comma pieces |
| Cells.SafeGetList | streamlit_app.py:36-40 | an absent column, a NaN cell or a non-text cell gives the empty list; a text cell gives its decoded items |
| Cells.DecodeJoined | streamlit_app.py:40 | text without brackets or quotes decodes to its comma pieces with the empty ones dropped and the others stripped |
| Cells.DecodeEncode | streamlit_app.py:36-40 | the text Python writes for a list of plain items decodes back to the same items in the same order |
| Cells.CommaItemSplits | streamlit_app.py:36-40 | an item `a, b` written by Python as `['a, b']` decodes to the two items `a` and `b` |
| Cells.HistologyOptionSplits | streamlit_app.py:36-40 | the saved Histology choice "Glomus tumour, malignant" reads back as "Glomus tumour" and "malignant" |
| ListReader.SafeGetListIntended | streamlit_app.py:36-40 | as `safe_get_list` for absent, NaN and non-text cells; a text cell gives the texts between successive pairs of single quotes, none containing a quote |
| ListReader.ReadEncode | streamlit_app.py:36-40 | every list of printable-ASCII items without a backslash or single quote, commas, brackets, blanks and empty items included, reads back from the text Python writes as the same items in the same order |
| ListReader.HistologyOptionReadsBack | streamlit_app.py:36-40 | the saved Histology choice "Glomus tumour, malignant" reads back as that one choice |
| Cells.DecodeDropsEmptyPiece | streamlit_app.py:40 | `a,,b` decodes to two items: the empty piece is dropped |
| Cells.DecodeKeepsBlankPiece | streamlit_app.py:40 | `a, ,b` decodes to three items with an empty middle one, because emptiness is tested before stripping |
| Store.StoredMrn | streamlit_app.py:46 | the MRN a row is compared by has no surrounding whitespace |
| Store.NormaliseRow | streamlit_app.py:46 | normalising a row adds or replaces only the MRN column, which becomes the stripped text of the cell; other columns are unchanged |
| Store.NormaliseRowIdempotent | streamlit_app.py:46 | normalising twice equals normalising once and keeps the stored MRN |
| Store.Normalise | streamlit_app.py:46 | every row normalised in place, the number of rows kept; each resulting row is unchanged by normalising again, and the MRN column is the one the table had |
| Store.MrnColumn | streamlit_app.py:46 | one stored MRN per row, in row order; a text is in the column exactly when some row stores it, and every entry is stripped |
| Store.IndexOf | streamlit_app.py:48-49 | the earliest position holding the key, and nothing exactly when the key is absent |
| Store.GetPatientData | streamlit_app.py:44-50 | nothing exactly when no row's stored MRN equals the stripped query; otherwise the normalised copy of the earliest matching row |
| Store.FetchPatient | streamlit_app.py:72 | an empty MRN looks nothing up; any other MRN gives the lookup's answer |
| Store.SaveData | streamlit_app.py:53-59 | one more row; earlier rows normalised in place; the new last row carries the record's columns and values, with the MRN stripped |
| Store.SaveMrnColumn | streamlit_app.py:53-59 | after a save the MRN column is the old column plus the record's stored MRN |
| Store.SaveKeepsEarlierLookup | streamlit_app.py:44-59 | a lookup that found a record before a save finds the same record after it, whatever MRN was saved |
| Store.SaveThenFind | streamlit_app.py:44-59 | a record saved under a new MRN is what the lookup of that MRN returns afterwards |
| Store.SaveTwiceKeepsBoth | streamlit_app.py:53-59 | saving twice under one MRN keeps both rows and the lookup returns the first |
| Store.SavedListRoundTrip | streamlit_app.py:36-59 | a list column saved as Python list text reads back through lookup and the corrected list reader as the same items, commas inside items included |
| Store.NumericMrnExamples | streamlit_app.py:46-48 | stored number 123 is found by `123` and ` 123 ` but not by `0123`, because the number is compared as its decimal text |
| Store.MatchExamples | streamlit_app.py:46-48 | stored ` A123 ` is found by `A123` but not by `a123` |
| Form.TimeToEvent | streamlit_app.py:452-455 | a month count exactly when the answer is "Yes", equal to the months from the last radiotherapy to the event; "N/A" otherwise |
| Form.Calculate | streamlit_app.py:447-455 | saving is allowed afterwards; the age satisfies the birthday bounds; the follow-up time is the month difference; an event answered "Yes" holds the months from the last radiotherapy to its date, any other answer holds "N/A" |
| Form.EventCells | streamlit_app.py:527-535 | the columns are exactly the four events' answer and time columns; each answer column holds the event's answer, and each time column the held month count when the answer is "Yes" and "N/A" otherwise |
| Form.BuildRecord | streamlit_app.py:474-536 | the record holds the MRN ("N/A" when empty), the age and follow-up time from the session, and the cancer-related-death answer when death is "Yes" and "N/A" otherwise; its columns are the pass-through ones plus the derived ones, and pass-through values are unchanged |
| Form.RecordEventColumns | streamlit_app.py:527-535 | each event's answer and time cell are stored under that event's own columns |
| Form.SaveInformation | streamlit_app.py:470-537 | without a calculated age and follow-up time: refusal message and the store unchanged; otherwise saved, one row longer, earlier rows only normalised, and the new last row is the built record with its MRN normalised |
| Form.SaveBeforeCalculateRefused | streamlit_app.py:470-472 | in a fresh session saving is refused and the store is unchanged |
| Form.StoredTimeNeedsYes | streamlit_app.py:527-535 | an event not answered "Yes" at save time is stored as "N/A", and a stored month count implies the answer was "Yes" |
| Form.CalculateThenSave | streamlit_app.py:447-537 | Calculate then Save appends one row with the age, the follow-up count, and per event its month count when "Yes" and "N/A" otherwise |
| Form.GateAsWritten | streamlit_app.py:471-472 | the gate as written raises when the age was never assigned, and proceeds exactly when both age and follow-up time are assigned and not None |
| Form.FreshSessionRaises | streamlit_app.py:471 | in a fresh session the gate as written raises on the age instead of refusing |
| Form.GateAgreesWhenInitialised | streamlit_app.py:471-472 | with both names assigned from the start, the gate proceeds exactly when calculated and otherwise refuses; it never raises |

## Left out

- The Streamlit widgets, layout and messages other than the save refusal: they are UI. The pre-filling of widgets from a found record is outside the model except through `safe_get` and `safe_get_list`.
- Reading and writing the spreadsheet (`load_data`'s `read_excel`, `to_excel`): file I/O. The table is a parameter and the result. A missing file is the empty table. The column list `load_data` gives a new table is not modelled, because rows are maps and carry whatever columns they have.
- Date parsing and formatting (`strptime`, `strftime`): the date columns of the record travel unchanged in the form's pass-through row. This includes the conditional "N/A" of `Recurrence_date` and `Surgery_date`, and the `Ureteral_Stenosis_Date` column.
- `datetime.today()`: a clock, so "today" is a parameter of `Dates.Age` and `Form.Calculate`.
- Calendar validity of days: only months are kept in 1..12 where it matters. Day numbers are compared but never checked against month lengths.
- NaN and `None` cells are one `None` here. `astype(str)` renders a NaN MRN as `nan` (`Store.CellText`); a Python `None` MRN would render as `None`, which the model does not distinguish.
- Numeric MRNs that pandas reads back as floats (text `123.0`) are not modelled: a number cell is an integer.
- Cells.DecodeEncode: only covers plain items: non-empty, printable ASCII, no backslash, none of `[ ] ' ,`, and no whitespace at either end. Items with a comma, a bracket or surrounding blanks are still written between plain single quotes, but the decoder splits at the comma, deletes the bracket or strips the blanks (`Cells.CommaItemSplits`). Items with a quote, a backslash or an unprintable character are written differently by `repr` and are not modelled.
- ListReader.ReadEncode: covers printable-ASCII items without a backslash or a single quote only. `repr` also writes other printable characters (such as `ü`) between plain quotes, and those items are left out. Items with a single quote are written between double quotes, and escape sequences are not modelled. The form's option lists are all ASCII.
- Store.SaveThenFind, Store.SaveKeepsEarlierLookup, Store.SaveTwiceKeepsBoth, Store.SavedListRoundTrip: these assume the spreadsheet reads back exactly the table that was written. pandas reads the texts "N/A", "nan" and "" (and its other default missing-value markers) back as NaN. So a record saved without an MRN, stored as "N/A", reads back with the MRN "nan", and a lookup of "N/A" does not find it. Time-to-event and other "N/A" cells also read back as NaN.
- Form.SaveInformation, Form.BuildRecord, Form.CalculateThenSave: building the record reads the name `Ureteral_Stenosis_date` (streamlit_app.py:509), which is assigned only when Ureteral Stenosis is "Present" (line 281). For any other answer, including the default "Absent", building the record raises NameError and nothing is saved. That column's "N/A" branch can never be taken, because a date is always truthy. The model treats this as widget wiring: it builds and saves the record whatever the Ureteral Stenosis answer.
- Concurrency and the non-atomic read-modify-write of the spreadsheet: two sessions saving at once can lose a row. The model is single-threaded.
- The Necrosis and LVI widgets pre-fill from the `Tumor_Focality` column, and the load schema names some columns differently from the saved record (`Dose` vs `Dose_per_Fraction`, `Local_Recurrence` vs `Local Recurrence`). Both are widget wiring, outside the record logic.

## Findings

| source | as written | input that shows it | evidently intended | confidence | as-written member | corrected member |
|---|---|---|---|---|---|---|
| streamlit_app.py:40 | the list decoder deletes every bracket and quote and then splits at every comma, including commas inside a quoted item | a record saved with the Histology choice "Glomus tumour, malignant" (stored as `['Glomus tumour, malignant']`) and looked up again | each item read whole from between its quotes, so the saved choices come back as choices the form offers | not executed | Cells.HistologyOptionSplits | ListReader.ReadEncode |
| streamlit_app.py:471 | nothing assigns `st.session_state.age` before the first "Calculate", so the gate's attribute read raises | a fresh session in which "Save Information" is pressed before "Calculate" | show the refusal message "Please calculate the age and treatment times before saving." and save nothing | not executed | Form.FreshSessionRaises | Form.SaveBeforeCalculateRefused |
