# Support tickets: the ticket table of `streamlit_app.py`

`streamlit_app.py` is a one-page Streamlit support-ticket form. Under its
widgets sits a small ticket table kept in the session state (`st.session_state.df`)
and saved to `tickets.csv`. Each row has the columns ID, Issue, Status,
Priority and Date Submitted. This project models that table and the steps that
touch it, and proves what they do:

- **Load** (lines 14-20): a new session reads `tickets.csv`, or starts with an
  empty table when the file is missing.
- **Submit** (lines 31-62): a blank issue (only whitespace in Python's sense)
  is refused. Otherwise the most recent ticket number is 1000 on an empty
  table. On a non-empty table it is `int(max(IDs).split("-")[1])`, where `max`
  is Python's string order over the whole ID column. The new row
  `TICKET-<n+1>`, with Status `Open`, the issue, the priority and the date, goes
  in front of the table, and the table is saved. When line 39 raises, nothing
  changes.
- **Reconcile** (lines 65-102): when the table has rows, the copy returned by
  the table editor replaces the table and is saved. The editor keeps every row
  in place and keeps ID and Date Submitted. A Status or Priority cell either
  comes back as shown or holds a value picked from its option list.
- **Open count** (line 109): the number of rows whose Status is `Open`.

The files:

- `PythonText.dfy`: the Python built-ins the script leans on. `str.isspace`,
  `str.strip()`, string `<` and `max`, `str.split`, `int(str)` and `str(int)`,
  with their laws: strip characterisation, a total strict order, join/split
  round trips, `int(str(n)) == n`, and "for equal-width digit strings, string
  order is numeric order".
- `Tickets.dfy`: the row type and the pure steps. `CreateTicket` gives the
  outcome of Submit. `RecentNumber` derives the ID (line 39 as written).
  `CountStatus` counts rows by status. `EditorOutput` is what the editor may
  hand back. The file also holds the lemmas about ID generation and counting.
- `TicketStore.dfy`: a `Store` class with the session table and the file
  contents as fields. Its methods `Submit` and `Reconcile` update them in
  place. Its invariant `Valid()` says that loading the file again gives the
  table in memory.

The wall clock (line 41) becomes the parameter `today`, already formatted. The
CSV file becomes a field that holds the table value, with `None` for a missing
file.

The ID is derived as the code does it: the string-greatest ID of the whole
column, not the first row. Under string order the derivation stays safe only
while all IDs have the same width. With IDs of one width `w` and distinct,
Submit never repeats an ID (`SubmitKeepsIdsDistinct`): below the all-nines
number the new ID is string-greater than all others, and at it the new ID is
one digit wider. After that step the widths are mixed. In the table the
generator has built by then, `TICKET-10000` sits beside four-digit IDs up to
`TICKET-9999`, so `TICKET-9999` is the greatest string and Submit issues
`TICKET-10000` a second time. `RolloverReissuesId` proves this for the table
of just those two rows, at every width.

## Model

| member | source | states |
|---|---|---|
| `PythonText.TrimStart` | streamlit_app.py:32 | the result is a suffix of the input, everything dropped is whitespace, and it does not start with whitespace |
| `PythonText.TrimEnd` | streamlit_app.py:32 | the result is a prefix of the input, everything dropped is whitespace, and it does not end with whitespace |
| `PythonText.IsSpaceAscii` | streamlit_app.py:32 | among ASCII characters, `str.isspace()` holds exactly for tab, line feed, vertical tab, form feed, carriage return, the four information separators and space |
| `PythonText.Strip` | streamlit_app.py:32 | `issue.strip()` is empty exactly when every character is whitespace; a non-empty result starts and ends with non-whitespace |
| `PythonText.StripUnchanged` | streamlit_app.py:32 | stripping a string that starts and ends with non-whitespace returns it unchanged |
| `PythonText.StrLessIrreflexive` | streamlit_app.py:39 | no string is less than itself under Python's string order |
| `PythonText.StrLessAsymmetric` | streamlit_app.py:39 | two strings are never each less than the other |
| `PythonText.StrLessTransitive` | streamlit_app.py:39 | string order is transitive |
| `PythonText.StrLessTotal` | streamlit_app.py:39 | any two different strings are ordered one way or the other |
| `PythonText.StrLessCommonPrefix` | streamlit_app.py:39 | a shared prefix such as `TICKET-` does not change how two IDs compare |
| `PythonText.MaxStr` | streamlit_app.py:39 | `max` of the ID column is one of the IDs and is at least every ID |
| `PythonText.MaxStrIsGreatest` | streamlit_app.py:39 | whichever element is at least every element is the one `max` returns |
| `PythonText.Split` | streamlit_app.py:39 | `split("-")` returns at least one piece and no piece contains `-` |
| `PythonText.JoinSplit` | streamlit_app.py:39 | joining the pieces of a split with the separator gives the string back |
| `PythonText.SplitJoin` | streamlit_app.py:39 | splitting a join of separator-free pieces gives the pieces back |
| `PythonText.SplitAfterPiece` | streamlit_app.py:39 | a separator-free piece followed by the separator comes off as the first piece |
| `PythonText.NatToString` | streamlit_app.py:45 | `str(n)` is a non-empty digit string whose value is `n`, with no leading zero when `n > 0`, and is `"0"` for 0 |
| `PythonText.IntToStringShape` | streamlit_app.py:45 | `str(n)` of a negative number is a minus sign followed by digits without a leading zero; otherwise it is a digit string |
| `PythonText.DigitsValueBound` | streamlit_app.py:39 | a string of `w` digits denotes a number below `10^w` |
| `PythonText.DigitsValueFront` | streamlit_app.py:39 | the leading digit of a digit string weighs `10^(w-1)` |
| `PythonText.SameWidthOrder` | streamlit_app.py:39 | for digit strings of equal length, string order and numeric order agree (both directions) |
| `PythonText.NatToStringWidth` | streamlit_app.py:45 | a number in `[10^(w-1), 10^w)` is written with exactly `w` digits |
| `PythonText.DigitGroupDigits` | streamlit_app.py:39 | removing the underscores `int()` allows leaves a non-empty digit string |
| `PythonText.DigitsAreDigitGroup` | streamlit_app.py:39 | a plain digit string is accepted by `int()` and has no underscores |
| `PythonText.ParseIntBlank` | streamlit_app.py:39 | `int()` of an empty or all-whitespace string raises, information separators included |
| `PythonText.SeparatorNotSkipped` | streamlit_app.py:39 | `int()` does not skip U+001C although `str.isspace()` holds for it: `int("\x1c5")` raises |
| `PythonText.ParseIntDigits` | streamlit_app.py:39 | `int()` of a non-empty digit string is its decimal value, with no limit on length (see `PythonText.ParseInt` under Left out) |
| `PythonText.IntStringRoundTrip` | streamlit_app.py:39-45 | `int(str(n)) == n` for every integer, negative ones included, with no limit on length (see `PythonText.IntToString` under Left out) |
| `Tickets.IdNumberAfterPrefix` | streamlit_app.py:39-45 | for `TICKET-` followed by text without `-`, line 39 parses exactly that text |
| `Tickets.IdNumberNeedsDash` | streamlit_app.py:39 | `IdNumber` of an ID without `-` raises, since `split("-")` gives one piece and index 1 does not exist |
| `Tickets.FormatIdShape` | streamlit_app.py:45 | `FormatId(n)`, the f-string `TICKET-{n}`, starts with `TICKET-` and has at least one character after it |
| `Tickets.IdNumberOfFormatId` | streamlit_app.py:39-45 | reading the number back out of `TICKET-<n>` gives `n` when `n >= 0` and raises when `n < 0` |
| `Tickets.NegativeIdNumber` | streamlit_app.py:39-45 | `TICKET-` followed by a negative number has an empty second piece, so line 39 raises on it |
| `Tickets.RecentNumberFromGreatest` | streamlit_app.py:36-39 | `RecentNumber` of a non-empty table is the number in the string-greatest ID (greatest under `StrLess`, Python's `<`), wherever that row sits |
| `Tickets.RecentNumberDependsOnIdsOnly` | streamlit_app.py:36-39 | two tables with the same ID column give the same recent number |
| `Tickets.CreateTicket` | streamlit_app.py:31-52 | Submit refuses exactly the blank issues, fails exactly when line 39 raises, and otherwise builds an `Open` ticket with the given issue, priority and date |
| `Tickets.FirstTicketId` | streamlit_app.py:36-50 | on an empty table the new ticket is exactly `TICKET-1001`, `Open`, with the given issue, priority and date |
| `Tickets.SecondTicketId` | streamlit_app.py:36-50 | with `TICKET-1001` as the only row the new ticket is `TICKET-1002` |
| `Tickets.NextIdAfterGreatest` | streamlit_app.py:39-45 | on a non-empty table the new ID is `TICKET-<k+1>` for the number `k` in the string-greatest ID, and `k+1` reads back from it |
| `Tickets.MalformedGreatestId` | streamlit_app.py:39 | on a non-empty table whose string-greatest ID has no readable number, Submit fails |
| `Tickets.TicketIdParses` | streamlit_app.py:39 | line 39 reads back the number of an ID `TICKET-` plus `w` digits |
| `Tickets.TicketIdRange` | streamlit_app.py:39 | such an ID's number lies in `[10^(w-1), 10^w)` |
| `Tickets.TicketIdOrder` | streamlit_app.py:39 | between two such IDs of equal width, string order is numeric order (both directions) |
| `Tickets.GreatestTicket` | streamlit_app.py:36-39 | on a non-empty table of `w`-digit IDs, the recent number is the number of the row holding the string-greatest ID |
| `Tickets.SuccessorId` | streamlit_app.py:39-45 | one more than a `w`-digit ticket number that is not all nines is again written with `w` digits |
| `Tickets.IdAboveGreatest` | streamlit_app.py:39-45 | a `w`-digit ID whose number exceeds that of the string-greatest ID is string-greater than, and different from, every ID |
| `Tickets.NextIdFresh` | streamlit_app.py:39-45 | when every ID has `w` digits and no number is all nines, the ID after the string-greatest one has `w` digits and is string-greater than every ID in the table |
| `Tickets.NextIdDistinct` | streamlit_app.py:39-45 | among `w`-digit IDs, the ID after the string-greatest one is none of them, the all-nines case included |
| `Tickets.SuccessorIdDistinct` | streamlit_app.py:39-45 | below the all-nines number, the ID after the string-greatest one is none of the `w`-digit IDs |
| `Tickets.RolloverSuccessorDistinct` | streamlit_app.py:39-45 | when the string-greatest number is all nines, the ID after it is none of the `w`-digit IDs |
| `Tickets.RolloverIdDistinct` | streamlit_app.py:39-45 | `TICKET-<10^w>` is one digit wider than every `w`-digit ID and so differs from all of them |
| `Tickets.NewIdExceedsAll` | streamlit_app.py:39-45 | when every ID is `TICKET-` plus `w` digits and none is all nines, the new ID has `w` digits and is string-greater than, hence different from, every existing ID |
| `Tickets.RolloverOrder` | streamlit_app.py:39 | for every width `w >= 1`, `TICKET-<10^w>` is string-less than `TICKET-<10^w - 1>` |
| `Tickets.PowerDigits` | streamlit_app.py:45 | `str(10^w)` starts with 1 and `str(10^w - 1)` starts with 9 |
| `Tickets.RolloverReissuesId` | streamlit_app.py:39-45 | for every width `w >= 1`, with rows `TICKET-<10^w>` and `TICKET-<10^w - 1>` (`TICKET-10000` and `TICKET-9999`), Submit creates `TICKET-<10^w>` again |
| `Tickets.RolloverRecent` | streamlit_app.py:36-45 | with rows `TICKET-<10^w>` and `TICKET-<10^w - 1>`, line 39 reads `10^w - 1`, whose successor is the first row's ID |
| `Tickets.RolloverFallsBelow` | streamlit_app.py:39-45 | with `TICKET-<10^w - 1>` as the only row, the new ID is `TICKET-<10^w>`, which is string-less than it |
| `Tickets.SubmitKeepsIdsDistinct` | streamlit_app.py:39-59 | when all IDs are distinct `TICKET-` IDs with `w` digits, Submit succeeds on a non-blank issue and the new ticket in front keeps the IDs pairwise distinct, with no condition on the all-nines number |
| `Tickets.SubmitKeepsIdWidth` | streamlit_app.py:39-59 | below the all-nines number, the table with the new ticket in front still has only `w`-digit IDs |
| `Tickets.PrependKeepsOptions` | streamlit_app.py:47-59 | a new row with an offered Status and Priority keeps the whole table within the options |
| `Tickets.CountStatus` | streamlit_app.py:109 | the count is at most the table length |
| `Tickets.CountStatusExtremes` | streamlit_app.py:109 | the count is 0 exactly when no row has the status, and equals the length exactly when every row has it |
| `Tickets.CountIsMultiplicity` | streamlit_app.py:109 | the count equals the multiplicity of the status in the Status column; with `Open` this is `OpenCount`, the metric of line 109 |
| `Tickets.CountConcat` | streamlit_app.py:109 | the count of a concatenation is the sum of the counts |
| `Tickets.CountAfterStatusEdit` | streamlit_app.py:101-109 | setting one row's Status moves exactly that row from its old status's count to the new status's count |
| `Tickets.CloseOpenTicket` | streamlit_app.py:101-109 | closing an open ticket lowers the open count by one and raises the closed count by one |
| `Tickets.PrependCount` | streamlit_app.py:59-109 | putting a row in front adds one to the count of its own status and leaves every other status's count alone |
| `Tickets.PrependOpenTicket` | streamlit_app.py:47-109 | putting an `Open` row in front raises the open count by one, and with an offered priority keeps the table within the options |
| `Tickets.PrependCreated` | streamlit_app.py:47-109 | the row Submit creates, put in front, raises the open count by one, and with an offered priority keeps the table within the options |
| `Tickets.NoEditIsEditorOutput` | streamlit_app.py:78-98 | handing back the shown table unedited is an `EditorOutput`, whatever its cells hold |
| `Tickets.EditKeepsOptions` | streamlit_app.py:78-98 | an edit of a table within the option lists stays within them |
| `Tickets.EditKeepsNextNumber` | streamlit_app.py:78-101 | an edited table the editor can return has the same ID column, so the next ticket number does not change |
| `Tickets.EditKeepsIdConditions` | streamlit_app.py:78-101 | an editor edit keeps the IDs distinct, of width `w` and below the rollover |
| `TicketStore.Store.Load` | streamlit_app.py:14-20 | through `LoadTable`, a missing file gives the empty table; an existing file gives its table; reloading gives the same table |
| `TicketStore.Store.Submit` | streamlit_app.py:31-62 | the outcome is `CreateTicket` of the old table; on success the table is the new ticket followed by the old rows, one longer, saved, with one more open ticket; otherwise table and file are unchanged; offered Status and Priority stay within the options |
| `TicketStore.Store.Reconcile` | streamlit_app.py:65-102 | with rows, the table and the file become the edited table; without rows nothing changes; an editor edit keeps the ID column and the next number, and keeps a table within the options within them |
| `TicketStore.FirstSubmit` | streamlit_app.py:14-62 | a session without a file that submits once holds and saves exactly the row `TICKET-1001`, `Open` |

## Left out

- The Streamlit page, form, data editor, metric and header widgets (lines
  10-11, 23-29, 55-56, 65-74, 105-112) are UI. Only the data they hand over is
  modelled: the form's issue and priority, and the editor's returned table
  (`EditorOutput`).
- The Altair charts per month and per priority (lines 114-142) are rendering
  by an external library.
- The fixed metrics 5.2 and 16 and the deltas (lines 110-112) are display
  constants, and one of them is a float.
- `datetime.now().strftime("%Y-%m-%d")` (line 41) reads the wall clock. The
  formatted date is the parameter `today`.
- `read_csv` and `to_csv` (lines 16, 62, 102) are modelled as a file that holds
  the table value exactly. pandas' type inference on reload is not modelled.
  Neither is the reading of an empty cell as NaN.
- The unused imports `random` and `numpy`.
- Streamlit's rerun loop is not modelled as one step. `Submit` and `Reconcile`
  are the two steps a run takes, in that order. A run in which line 39 raises
  stops before `Reconcile`.
- PythonText.ParseInt: accepts ASCII digits only, while Python's `int()` also
  accepts other Unicode decimal digits. So an ID with such digits parses in
  Python and fails in the model. It also reads digit strings of any length.
  Since Python 3.11 (and 3.7.14, 3.8.14, 3.9.14, 3.10.7), `int()` raises
  `ValueError` on a decimal literal of more than 4300 digits (the limit of
  `sys.set_int_max_str_digits`, CVE-2020-10735). So a string-greatest ID with
  4301 digits makes line 39 raise, while the model creates a ticket.
- PythonText.IntToString: formats every integer, while `str(n)` and the
  f-string of line 45 raise `ValueError` in those Python versions when `n` has
  more than 4300 digits. So when the greatest number is `10^4300 - 1` the model
  creates `TICKET-<10^4300>`, while line 45 raises. `ParseIntDigits` and
  `IntStringRoundTrip` hold for the conversions as modelled, which agree with
  Python up to 4300 digits.
- Tickets.NewIdExceedsAll: the string-greater and same-width conclusions need,
  besides equal widths, that no existing number is all nines. Without that
  condition they are false: with `TICKET-9999` as the only row the new
  `TICKET-10000` is string-less than it (`RolloverFallsBelow`). Distinctness
  needs no such condition (`SubmitKeepsIdsDistinct`).
- `Valid()` relates the table to the file for one session. Other sessions
  writing `tickets.csv` at the same time are not modelled.
- Status and Priority are modelled as strings, not as an enumeration. A table
  loaded from a file can hold any strings, and the editor hands back cells
  nobody edited as they were. So the option lists hold (`InOptions`) only for
  a table that started within them, as a table built by the form does.
