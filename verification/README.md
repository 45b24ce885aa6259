# Cap table: ledger ingestion and vesting aggregation

A Dafny model of the cap-table computation of `main.py` (`CapitalizationTable`)
and of its domain records (`ShareHolder`, `Employee`, `EquityEvent`).

The ledger is a sequence of rows with six text columns: event type, employee id,
employee name, award id, date (`YYYY-MM-DD`) and quantity. Ingestion goes
through the rows in order and builds two indexes. The employee directory maps an
employee id to an `Employee`, which holds a grow-only set of award ids. The event
index maps an award id to that award's events, in ledger order. Aggregation
replays each owned award's events up to an inclusive cutoff date. An exact
`"VEST"` adds the quantity, an exact `"CANCEL"` subtracts it, and any other
token adds nothing. Aggregation emits one row `(employee id, name, award id,
total)` per owned (employee, award) pair.

Modules, leaf first:

- `Wrappers` (`wrappers.dfy`): `Option` and `Result`.
- `Sequences` (`sequences.dfy`): the multiset fact the permutation proofs share.
- `Numerals` (`numerals.dfy`): the integer parser used for the quantity column, with its inverse.
- `Dates` (`dates.dfy`): the `YYYY-MM-DD` date parser, its inverse and the chronological order.
- `ShareHolders`, `Employees`, `EquityEvents`: the three records.
- `Ledger` (`ledger.dfy`): row parsing, the upserts, ingestion as a fold, and the table invariant.
- `Vesting` (`vesting.dfy`): the net quantity, its reference definitions and the schedule.
- `Scenarios` (`scenarios.dfy`): worked ledgers.

Ingestion is permissive; the model follows `main.py`:

- Event types are compared exactly. A lower-case `vest` is stored and then contributes 0 (`Scenarios.LowerCaseVestIgnored`).
- Ids and names are not trimmed, and an empty id is accepted.
- An empty ledger is not an error. It leaves both indexes empty (`Ledger.EmptyLedger`).
- Blank rows are skipped.
- Rows with more than six columns are accepted, and the extra columns are ignored (`Scenarios.ExtraColumnsIgnored`).
- The first rejected row stops ingestion. Rows already ingested stay in the table; there is no rollback (`Ledger.IngestHaltsAtFirstBadRow`).
- Columns are checked in the order the code reads them. A five-column row with a bad date fails on the date (`Ledger.ParseRow`).
- Two employees may own one award id. Both then get a row carrying the award's full total (`Vesting.SharedAwardListedTwice`).
- A net quantity may be negative (`Scenarios.OverCancelIsNegative`).
- `main.py` builds its events with its own local `EquityEvent`, whose parameter order is `(award_id, award_date, award_qty, event_type)`. `EquityEvent.py` orders them `(award_id, event_date, event_type, award_qty=0)`. The model has one record, and `Ledger.RowEvent` passes the row's fields to it by name, so the two orders agree.

## Model

| member | source | states |
|---|---|---|
| ShareHolders.NewShareHolder | ShareHolder.py:14-17 | a new shareholder has the given id and name and holds no awards |
| ShareHolders.AddEquityAward | ShareHolder.py:19-22 | after adding, the id is held; the old set is a subset of the new one; nothing but that id is new; id and name are unchanged |
| ShareHolders.AddEquityAwardIdempotent | ShareHolder.py:19-21 | adding an id twice equals adding it once; adding an id already held changes nothing |
| ShareHolders.GetAfterAdd | ShareHolder.py:19-26 | the getter after an add returns the previous set plus the added id |
| ShareHolders.AddEquityAwardsIsUnion | ShareHolder.py:19-22 | any sequence of adds yields the old set united with the added ids, whatever their order or repetition, and leaves id and name alone |
| Employees.NewEmployee | Employee.py:20-23 | a new employee is tagged "Employee", its employee id is its shareholder id, it has the given name and no awards |
| Employees.AddAward | Employee.py:4-23 | the inherited adder keeps the employee valid (id alias and tag), keeps the name, and adds exactly the award |
| EquityEvents.NewEquityEvent | EquityEvent.py:16-20 | every field is stored as passed, the type token raw; an omitted quantity is 0 |
| Vesting.DefaultQuantityContributesNothing | EquityEvent.py:16-19 | an event built without a quantity has quantity 0 and contributes 0 to any total |
| Numerals.ParseInt | main.py:26 | an accepted quantity text is non-empty and starts with a sign or a digit; a negative result comes only from a leading `-` |
| Numerals.ParseIntExact | main.py:26 | a text is accepted iff it is an optional `+`/`-` followed by at least one ASCII digit, and the result is the value of those digits, negated when the sign is `-` |
| Numerals.IntRoundTrip | main.py:26 | every integer's canonical literal parses back to that integer |
| Dates.ParseDate | main.py:25 | an accepted date text is ten characters long and yields a real calendar day in years 1 to 9999 |
| Dates.DateRoundTrip | main.py:25 | every valid calendar date's `YYYY-MM-DD` rendering parses back to that date |
| Dates.DateCanonical | main.py:6 | a text the date parser accepts is exactly the rendering of the date it yields |
| Dates.BeforeIsStrictTotalOrder | main.py:48 | the date comparison used at the cutoff is a strict total order |
| Ledger.ParseRow | main.py:21-26 | a row parses iff it has at least six columns, a valid date and an integer quantity; text columns are kept verbatim; failures report a missing column, a bad date or a bad quantity, in reading order |
| Ledger.RecordEmployee | main.py:28-34 | the upsert puts the id in the directory owning the award; an existing employee only gains the award; a new one is created with the row's name; other employees and the event index are untouched |
| Ledger.RecordEvent | main.py:36-37 | the award's list grows by exactly the event, created empty on first use; every other list and the directory are unchanged |
| Ledger.IngestRow | main.py:19-37 | a blank row leaves the table unchanged; any other row is accepted iff it parses, and a rejection carries the parse error |
| Ledger.IngestSnoc | main.py:18-37 | one more row after a completed ingestion is one more loop iteration: it halts at that row's index with the parse error, or yields the table the row step returns |
| Ledger.IngestAccepted | main.py:18-37 | after a completed ingestion, one more parsable row is recorded in the directory and in the event index, and ingestion still completes |
| Ledger.Ingest | main.py:18-37 | ingestion either completes or names a halting row inside the ledger (the halt itself is characterised by Ledger.IngestHaltsAtFirstBadRow) |
| Ledger.IngestRowEffect | main.py:28-37 | after an accepted row its employee owns its award, existing names are kept, its award list grows by its event and all other lists are unchanged |
| Ledger.IngestRowTwice | main.py:28-37 | the same row fed twice is accepted twice, leaves every employee as after the first time, and grows its award list by two |
| Ledger.IngestRowDirectory | main.py:28-34 | one accepted row adds its employee if new, keeps existing names, names a new employee after the row, and adds the row's award to its employee only |
| Ledger.IngestRowPreservesWellFormed | main.py:28-37 | an accepted row keeps the invariant: ids file their own valid employee, and every owned award has a non-empty event list |
| Ledger.IngestPreservesWellFormed | main.py:18-37 | ingestion of any ledger, halted or not, keeps the invariant |
| Ledger.EmptyLedger | main.py:11-13 | the empty table satisfies the invariant, and an empty ledger leaves it empty without error |
| Ledger.IngestSucceedsIff | main.py:18-26 | ingestion completes iff every non-blank row parses |
| Ledger.IngestHaltsAtFirstBadRow | main.py:18-26 | a halt names a non-blank row that fails for the reason given; the returned table is the completed ingestion of the rows before it |
| Ledger.IngestEvents | main.py:36-37 | after completed ingestion, an award's list is its old list followed by the ledger's events for it, in ledger order |
| Ledger.IngestNames | main.py:28-34 | after completed ingestion the directory holds the old employees plus every id on a parsable row; old employees keep their names, new ones bear the name on their first row |
| Ledger.IngestAwards | main.py:28-34 | after completed ingestion an employee's awards are its old awards plus every award its rows name |
| Ledger.EventsForPermutation | main.py:36-37 | reordering the ledger only reorders each award's recorded events |
| Vesting.NetQuantityIsVestedMinusCancelled | main.py:46-53 | the net quantity is the total of exact-VEST events dated on or before the cutoff minus that of exact-CANCEL events; nothing else counts |
| Vesting.NetQuantityAppend | main.py:46-53 | the net quantity of a concatenation is the sum of the parts' net quantities |
| Vesting.NetQuantityPermutation | main.py:47-53 | any permutation of an event list has the same net quantity |
| Vesting.NetQuantityRemove | main.py:47-53 | removing one event removes exactly its contribution |
| Vesting.CutoffExtension | main.py:48-49 | a later cutoff keeps every counted contribution and adds those of the events after the earlier cutoff |
| Vesting.CutoffInclusive | main.py:48-49 | an event dated exactly on the cutoff counts in full |
| Vesting.LaterEventSkipped | main.py:48-49 | an event dated after the cutoff is skipped |
| Vesting.OtherTypesContributeNothing | main.py:50-53 | a type token other than exactly "VEST" or "CANCEL" contributes 0 |
| Vesting.ComputeNetQuantity | main.py:45-53 | the running-total loop ends with the net quantity, that is vested minus cancelled up to the cutoff |
| Vesting.GetAllEmployeeVestingStatus | main.py:39-56 | whatever order employees and awards are visited in, the schedule's rows are exactly the rows owed to owned pairs, and no pair appears twice |
| Vesting.StatusRowPerPair | main.py:41-54 | every owned pair, zero total included, has its row; a pair has at most one row; a pair not owned has none |
| Vesting.SharedAwardListedTwice | main.py:41-54 | an award owned by two employees yields two distinct rows with the same total |
| Vesting.OwnedAwardsAreIndexed | main.py:45 | in a well-formed table every reported award already has a non-empty list, so the lookup never creates an entry |
| Vesting.LedgerOrderIndependent | main.py:18-53 | a reordered ledger also ingests, and gives every award the same net quantity and every employee the same awards |
| Scenarios.SingleVest | main.py:18-56 | one vest of 100 on 2020-01-01, cutoff 2020-06-01: exactly the row (E1, Alice, ISO-1, 100) |
| Scenarios.VestThenCancel | main.py:46-53 | vest 100 on 2020-01-01 then cancel 40 on 2020-03-01: for every cutoff on or after 2020-03-01 the net is 60; for every cutoff from 2020-01-01 up to but excluding 2020-03-01 it is 100 |
| Scenarios.MalformedQuantityHalts | main.py:26 | a quantity "abc" in the second row halts at index 1, keeping the first row's employee |
| Scenarios.DateCheckedBeforeLastColumn | main.py:21-26 | a five-column row fails on a bad date before the missing column; a short row reports the first missing index |
| Scenarios.ExtraColumnsIgnored | main.py:21-26 | a seventh column does not change the parse |
| Scenarios.BlankAndEmptyLedgers | main.py:18-20 | an empty ledger and a ledger of blank rows both leave the table empty without error |
| Scenarios.LowerCaseVestIgnored | main.py:50-53 | a "vest" row is ingested but nets 0 |
| Scenarios.OverCancelIsNegative | main.py:50-53 | cancelling 150 against a vest of 100 nets -50 |
| Scenarios.SharedAwardIngested | main.py:28-34 | two employees' rows for one award id leave both owning it |

## Left out

- File and CSV reading (main.py:16-17): the ledger is given as a sequence of rows of text columns.
- The `__main__` block with its fixed path and date (main.py:82-87), and the debug `print` (main.py:44).
- Numerals.ParseInt: accepts an optional `+`/`-` sign and ASCII digits only. It is stricter than Python's `int`, which also allows surrounding whitespace, `_` separators and non-ASCII digits. A row using those forms is rejected by the model but accepted by the code.
- Dates.ParseDate: accepts zero-padded `YYYY-MM-DD` naming a real day in years 1 to 9999. It is stricter than `strptime`, which also takes one-digit months and days, a space-padded day (`" 5"`) and non-ASCII decimal digits in every field. Locale and time-of-day details are not modelled.
- Python exception types: a short row is `MissingField(index)` rather than an `IndexError`, and a bad date or quantity is a `RowError` rather than a `ValueError`.
- Dict and set iteration order (main.py:41, 43): the schedule method picks each next employee and award arbitrarily, so its contract holds for every order.
- The `defaultdict` read at main.py:45 could insert an empty list for an unknown award. The model reads with a default instead. `Vesting.OwnedAwardsAreIndexed` shows the key is always present in a well-formed table.
- Aliasing: `get_equity_awards` returns the live set object. The model returns the set as a value.
- `main.py`'s own copies of `Employee` and `EquityEvent` (main.py:59-79) are the `Employees` and `EquityEvents` modules. Their set semantics are the same.
- Decimal quantities mentioned in the `EquityEvent` docstring: quantities are unbounded integers.
