# Speech-therapy clinic: sessions, invoices and pending-invoice reconciliation

This project models the billing core of a single-file clinic-management app,
`sistema.py`. The app is for a speech-therapy practice. It keeps two SQLite
tables:

- `pacientes`: patients, each with a name and a birth date;
- `atendimentos`: sessions, each with a date, a status, an amount, clinical
  notes and a "nota fiscal" flag that records whether the invoice was issued.

Four parts of the app are modelled:

- **The writes.** A patient is stored only when the name is not empty. A
  session is stored for the first patient with the selected name. "Já Emiti"
  raises one session's invoice flag.
- **The history listing.** This is the join of sessions with their patients,
  newest first. It has a name filter whose options are "Todos" followed by
  each name once.
- **The reconciliation.** Pending sessions are those with status
  `Realizado` whose invoice was not issued. Three figures are computed:
  - "Faturamento Total": the sum over completed sessions;
  - "Pendência de NF": the sum over pending sessions;
  - "Sessões s/ Nota": the number of pending sessions.
- **The report.** The spreadsheet report of the pending sessions, and the
  DD/MM/YYYY text the pages show for a date.

Modules:

- `Records`: the rows of both tables and of the joined query, in
  `records.dfy`.
- `Tables`: row selection that keeps order (`WHERE` / boolean indexing) and
  the subsequence relation, in `tables.dfy`.
- `Listing`: the join, the date sort, and the name filter with its options,
  in `listing.dfy`.
- `Reconciliation`: pending and completed rows, the three figures, and the
  invoice-flag update on the listing, in `reconciliation.dfy`.
- `Export`: the report sheet, in `export.dfy`.
- `DateText`: the DD/MM/YYYY rendering, in `dates.dfy`. A reader of that text
  (`ParseDate`, which has no counterpart in the app) serves to prove that the
  rendering loses nothing.
- `Store`: the database as a class `Clinic`, in `store.dfy`. The class has
  one field per table and one per AUTOINCREMENT counter. Its methods are the
  three writes and the loop over the pending rows. Each method is proved
  against the pure functions above. A ghost invariant `Consistent` holds
  throughout:
  - ids are positive, increasing and never above their counter;
  - amounts are non-negative;
  - every session refers to a stored patient.

Conventions:

- Amounts are integer cents. The source stores `REAL` reais, and the model
  keeps sums exact.
- The status is an enumeration of the four values the status selectbox
  offers.
- A date is a (year, month, day) triple. `DateLe` is the chronological order,
  which is the order `ORDER BY` uses on the stored ISO text.

Where the code decides something that a reading of the app's behaviour might
expect otherwise, the model follows the code:

- **No referential check when a session is saved.** The schema declares a
  foreign key, but SQLite does not enforce foreign keys unless they are
  switched on, and the app never switches them on. The only guard is the
  page, which shows no session form while there are no patients.
  `Clinic.SaveSession` therefore stores nothing when no patient carries the
  selected name. The join (an inner `JOIN`) drops any session without a
  patient.
- **No server-side validation.** The amount's lower bound of zero comes from
  the number widget, so it is a precondition of `SaveSession`. The status
  comes from a fixed selectbox, so it is a type. An empty patient name is the
  only input the code itself rejects.
- **No report when nothing is pending.** The report is built and offered only
  when at least one session is pending. `Export.Report` returns `None`
  otherwise, not an empty sheet.
- **No secondary sort key.** The history query sorts by date only. The model
  fixes one order: a stable sort, so sessions with the same date keep table
  (id) order. The three figures are proved equal on every reordering of the
  same rows (`PermutationKeepsTotals`), so they do not depend on that choice.
- **Homonyms.** The session form looks up the patient id by name. A session
  recorded while a later patient's name is selected goes to the first
  patient with that name (`Store.HomonymGoesToFirst`).

## Model

| member | source | states |
|---|---|---|
| Tables.Where | sistema.py:117 | Boolean-mask selection: the result holds exactly the rows that satisfy the mask and is no longer than the input |
| Tables.WhereSubsequence | sistema.py:133-136 | Boolean-mask selection keeps the listing's order: the result is a subsequence of the input |
| Tables.WhereConcat | sistema.py:133-136 | Selection distributes over concatenating two listings |
| Tables.WhereUniqueIds | sistema.py:133-136 | A selection from a listing with distinct session ids also has distinct ids |
| Tables.SubsequenceSorted | sistema.py:133-136 | A subsequence of a listing sorted newest first is itself sorted newest first |
| Listing.PatientName | sistema.py:102 | The join's lookup of a session's patient name; what it finds is stated by PatientNameFound, and that adding a patient leaves it unchanged by Store.PatientNameSnoc |
| Listing.JoinRows | sistema.py:99-102 | The inner join in table order; its length, members, appends and ids are stated by JoinRowsLength, JoinRowsMembers, JoinRowsSnoc and JoinRowsUniqueIds |
| Listing.SortByDateDesc | sistema.py:103 | The newest-first order, stable on ties; it is a sorted permutation by SortByDateDescSpec and keeps the figures by SortKeepsSelection |
| Listing.History | sistema.py:99-105 | The history query; its shape and members are stated by HistoryShape and HistoryMembers, its figures by Reconciliation.HistoryTotals, and its update by Store.HistoryMarked |
| Listing.PatientNameFound | sistema.py:102 | The join finds a name for a patient id exactly when some patient has that id; the name is that of the first such patient |
| Listing.JoinRowsLength | sistema.py:99-105 | The join has at most one row per session, and exactly one per session when every session's patient exists |
| Listing.JoinRowsMembers | sistema.py:99-105 | A row is in the join if and only if it is some session's columns with the name of that session's patient; orphan sessions are dropped |
| Listing.JoinRowsSnoc | sistema.py:99-105 | Appending a session adds its joined row at the end of the join, or nothing if its patient is missing |
| Listing.JoinRowsUniqueIds | sistema.py:99-105 | With increasing session ids, the joined rows have distinct ids |
| Listing.InsertByDate | sistema.py:103 | Inserting one row keeps the multiset of rows plus that row |
| Listing.InsertByDateSorted | sistema.py:103 | Inserting into a listing sorted newest first keeps it sorted |
| Listing.SortByDateDescSpec | sistema.py:103 | `ORDER BY data_consulta DESC`: the result is a permutation of the input, sorted newest first |
| Listing.SortByDateDescUniqueIds | sistema.py:103 | Sorting keeps ids distinct |
| Listing.HistoryShape | sistema.py:99-105 | The history is sorted newest first and is a permutation of the join; it has one row per session when every patient exists; ids are distinct when session ids increase |
| Listing.HistoryMembers | sistema.py:99-105 | A row is in the history if and only if it is some session joined with its patient's name |
| Listing.FilterByName | sistema.py:115-119 | "Todos" leaves the listing unchanged; any other choice keeps exactly the rows with that name, in listing order, and keeps them sorted |
| Listing.UniqueNamesOrder | sistema.py:115 | `unique()` lists the names in order of first appearance: each name's first row comes before the next name's first row |
| Listing.UniqueNames | sistema.py:115 | `unique()`: every listed name appears exactly once, every entry is a listed name, and the first is the first row's name |
| Listing.FilterOptions | sistema.py:115 | The filter options are "Todos" followed by the distinct names of the listing |
| Reconciliation.Completed | sistema.py:138 | The completed rows are exactly the `Realizado` rows, in listing order |
| Reconciliation.Pending | sistema.py:133-136 | A row is pending if and only if it is `Realizado` with no invoice issued; the pending list keeps the listing's order and sortedness |
| Reconciliation.TotalBilled | sistema.py:138 | "Faturamento Total": the completed rows' amounts; its bounds, appends, reorderings and invoice updates are stated by TotalsBounds, TotalsSnoc, PermutationKeepsTotals and MarkKeepsTotalBilled |
| Reconciliation.PendingAmount | sistema.py:139 | "Pendência de NF": the pending rows' amounts; stated by TotalsBounds, TotalsSnoc, PermutationKeepsTotals, MarkPending and MarkPendingRow |
| Reconciliation.PendingCount | sistema.py:140 | "Sessões s/ Nota": the number of pending rows; stated by TotalsBounds, TotalsSnoc, PermutationKeepsTotals, MarkPending and MarkPendingRow |
| Reconciliation.SumConcat | sistema.py:138-139 | The sum of amounts over two listings is the sum of their sums |
| Reconciliation.SumNonNegative | sistema.py:138-139 | With non-negative amounts, a sum of amounts is non-negative |
| Reconciliation.SumWhereAtMost | sistema.py:138-139 | With non-negative amounts, any selection sums to between zero and the whole listing's sum |
| Reconciliation.PendingWithinCompleted | sistema.py:133-138 | The pending rows are the pending rows among the completed rows, and form a subsequence of them |
| Reconciliation.TotalsBounds | sistema.py:133-140 | With non-negative amounts, 0 <= "Pendência de NF" <= "Faturamento Total", and "Sessões s/ Nota" is at most the number of completed sessions |
| Reconciliation.NonBillableIgnored | sistema.py:133-140 | A session that is Agendado, Falta or Cancelado, wherever it sits, changes neither the completed and pending lists nor any of the three figures |
| Reconciliation.TotalsSnoc | sistema.py:138-140 | Appending a row changes each figure by exactly that row's own contribution |
| Reconciliation.InsertKeepsSelection | sistema.py:138-140 | Inserting a row by date leaves the count and sum of any selection as with the row put in front |
| Reconciliation.SortKeepsSelection | sistema.py:138-140 | Sorting by date leaves the count and sum of any selection as they were |
| Reconciliation.PermutationKeepsSelection | sistema.py:133-140 | Any reordering of the same rows leaves the count and sum of any selection as they were |
| Reconciliation.PermutationKeepsTotals | sistema.py:138-140 | The three figures are the same on every ordering of the same rows, so the order the database returns same-date rows in does not matter |
| Reconciliation.HistoryTotals | sistema.py:99-140 | The figures on the sorted history equal those on the unsorted join |
| Reconciliation.MarkRows | sistema.py:171 | Setting `nota_fiscal = 1 WHERE id = ?` on the listing raises the flag exactly on the rows with that id, and changes no other field and no row count |
| Reconciliation.MarkRowsIdempotent | sistema.py:171 | Running the update twice equals running it once |
| Reconciliation.MarkRowsUnknownId | sistema.py:171 | An id no row carries leaves the listing unchanged |
| Reconciliation.MarkInsert | sistema.py:171 | The update commutes with inserting a row by date |
| Reconciliation.MarkSort | sistema.py:171 | The update commutes with the date sort, so the listing order does not move |
| Reconciliation.MarkKeepsTotalBilled | sistema.py:138-171 | Issuing an invoice changes neither the completed rows (up to the flag) nor "Faturamento Total" |
| Reconciliation.MarkPending | sistema.py:133-171 | After the update a row is pending if and only if it was pending with another id; the pending count and amount drop by exactly the count and sum of the pending rows with that id |
| Reconciliation.PendingIdAtMostOne | sistema.py:133-136 | With distinct ids, at most one pending row carries a given id |
| Reconciliation.MarkPendingRow | sistema.py:160-171 | Clicking "Já Emiti" on a pending row removes it from the pending list, lowers "Sessões s/ Nota" by one and "Pendência de NF" by its amount |
| Reconciliation.MarkNotPending | sistema.py:133-171 | Updating an id that no pending row carries leaves the pending list unchanged |
| Export.Project | sistema.py:181 | The report has one line per pending row, in the same order, with that row's name, stored date and amount |
| Export.ProjectTotal | sistema.py:181-182 | The report's amount column sums to the projected rows' amounts |
| Export.Report | sistema.py:151-187 | The report exists if and only if something is pending. It is sheet "Pendencias_NF" with the three renamed columns and exactly the pending rows, in the pending list's order and newest first. Its line count is "Sessões s/ Nota" and its total is "Pendência de NF" |
| DateText.Digits | sistema.py:109 | A number written zero-padded to a fixed width has that many characters, all decimal digits |
| DateText.ValueDigits | sistema.py:109 | Reading back a zero-padded number gives the number |
| DateText.FormatDate | sistema.py:163 | `strftime('%d/%m/%Y')` is ten characters with slashes at positions 2 and 5 |
| DateText.FormatParse | sistema.py:109 | The DD/MM/YYYY text loses nothing: reading it back gives the stored date |
| DateText.FormatInjective | sistema.py:109 | Two valid dates show the same text only if they are equal |
| Store.PatientIdFor | sistema.py:69-70 | The selected id exists if and only if some patient has the selected name, and it is the id of the first such patient in table order |
| Store.PatientIdForStored | sistema.py:66-70 | The id picked for a selected name joins back to a stored patient |
| Store.MarkSessions | sistema.py:171 | `UPDATE atendimentos SET nota_fiscal = 1 WHERE id = ?` raises the flag exactly on the sessions with that id and changes nothing else |
| Store.MarkSessionsIdempotent | sistema.py:171 | Running the update twice leaves the table as running it once |
| Store.MarkSessionsUnknownId | sistema.py:171 | The update with an unknown id changes nothing |
| Store.JoinMarked | sistema.py:99-171 | Updating then joining equals joining then updating |
| Store.HistoryMarked | sistema.py:99-171 | The history after the update is the history before with that row's flag raised; the order does not move |
| Store.PatientNameSnoc | sistema.py:59 | Adding a patient does not change the name any existing session joins to |
| Store.JoinNewPatient | sistema.py:99-105 | Adding a patient does not change the history |
| Store.FirstClicked | sistema.py:160-174 | The id acted on is that of the first pending row, in listing order, whose button was clicked; there is none if and only if no pending row's button was clicked |
| Store.AddPatientKeeps | sistema.py:57-59 | Appending a patient with the next id keeps the database consistent, and leaves the history unchanged |
| Store.SaveSessionKeeps | sistema.py:85-89 | Appending a session with the next id for a stored patient keeps the database consistent |
| Store.SaveSessionTotals | sistema.py:87-140 | Storing a session changes each figure by exactly that session's own contribution |
| Store.MarkKeeps | sistema.py:171 | The invoice update keeps the database consistent |
| Store.ConsistentTotals | sistema.py:133-140 | On a consistent database every listed amount is non-negative and 0 <= "Pendência de NF" <= "Faturamento Total" |
| Store.HomonymGoesToFirst | sistema.py:69-70 | With two patients of the same name, the lookup never yields the later one's id |
| Store.Clinic.constructor | sistema.py:20-38 | A fresh database has empty tables and counters at zero, and is consistent |
| Store.Clinic.AddPatient | sistema.py:57-60 | An empty name stores nothing. Otherwise the patient is appended under the next AUTOINCREMENT id, which is larger than every earlier id. Sessions and the history are unchanged |
| Store.Clinic.SaveSession | sistema.py:66-91 | The session is appended under the next id, for the first patient with the selected name. If no patient has that name, nothing is stored. Each figure moves by exactly the new session's contribution |
| Store.Clinic.MarkIssued | sistema.py:169-174 | The session table becomes the old one with that id's flag raised, and nothing else changes. The history is the old history with that row's flag raised. An unknown id changes nothing |
| Store.Clinic.ReviewPending | sistema.py:160-174 | Walking the pending rows in listing order, the first clicked row is marked as issued and the walk stops. With no click, nothing changes |

## Left out

- The automatic `pip install` of `openpyxl` at start-up (lines 9-17) is left out: it is environment set-up, not behaviour of the app.
- SQLite itself is left out: the connection, the schema creation, `commit`, `check_same_thread` and any concurrent access. The tables are modelled as sequences in table order.
- The `pandas` data frames are modelled as sequences of rows.
- Streamlit rendering is left out: menus, forms, widgets, messages, expanders, metrics and `st.rerun`. The widgets' values are parameters of the methods; in particular, the set of clicked buttons is a parameter of `ReviewPending`.
- The form defaults are parameters rather than fixed values: the amount default of 100.0 and the unchecked invoice box.
- Floating point is left out. `REAL` amounts in reais and the `:.2f` formatting are modelled as exact integer cents.
- The bytes of the `.xlsx` file and the download button are left out. `Export.Report` stops at the sheet's name, header and rows.
- The order among sessions with the same date is not fixed by the query. The model fixes a stable order (table order among ties). The figures are proved the same on every ordering; the order of the listed rows and of the report's lines is that of the model's choice.
- The expander text in the records tab is display only: the date, name, status, invoice icon and notes (or "Sem anotações.").
- ValidDate: checks only the ranges of the day, month and four-digit year, not the length of each month. `pandas` date parsing and its supported range are not modelled.
- Store.Clinic.SaveSession: requires a non-negative amount, because the only bound in the source is the number widget's `min_value`.
