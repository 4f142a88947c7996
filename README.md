# stock-watch: the watch-list store and the check run

stock-watch is a small batch job. It reads a watch list of stock codes. Each
code has a threshold price and a trigger direction (`over` or `under`). The
job fetches each code's current price and sends a notification when the
threshold is crossed. This project models and proves the two parts of it
that carry logic:

- **`CsvAsDb`** (`stock-watch/db/csv.py`) is the watch-list store. It treats an
  already-loaded table of rows `(description, price, trigger)` as a database.
  The model covers:
  - `get_descriptions`: the codes without repeats, in first-occurrence order;
  - the validating single-row lookup `__get_price_trigger_from_db` and its two
    `DbException` messages;
  - `get_judge_func`: the inclusive threshold predicate;
  - `make_alert_message`, with `'{:,.1f}'` price rendering, and `make_fail_message`;
  - `get_description_groups`: the over/under partition.

  The table never changes after loading. So every query is a function of the
  table (`csv_db.dfy`, module `CsvDb`). The one loop, `get_description_groups`,
  is a method whose contract ties its result to a specification function.
  The text conversions the store relies on live in `format.dfy` (module
  `Format`): `str.isdigit`, `Decimal(...)` of a digit string, `str(int)`, and
  comma grouping of thousands.
- **`Main`** (`stock-watch/main.py`) is the orchestrator (`main.dfy`, module
  `Orchestrator`). It is a class with:
  - the collaborators fixed at construction: the store, the price source, and
    the notifier's success oracle;
  - a mutable `trace` of what the run has done so far: price fetches, judge
    calls, judge applications, sends, exception records;
  - a mutable count of notifier calls.

  The methods `SendMessage`, `Alert`, `Fail`, `Process` (one code),
  `ProcessAll` (the `for` loop) and `Execute` follow `send_message`, `alert`,
  `fail` and `execute`. `Deliver` inserts one exception record after each send
  the notifier rejects. Each method is proved against a function of the run
  when every send succeeds:
  - `Execute` against `Plan`, composed with `Deliver`;
  - `ProcessAll` against `Loop`, and `Process` against `CodeStep`, each
    composed with `Deliver`;
  - `Alert` and `Fail` against `Deliver` of their single send;
  - `SendMessage` states its new trace directly.

  `sys.exit()` becomes the status `ExitedEarly`. A `DbException` escaping the
  loop becomes `AbortedByDbError`.

`run_props.dfy` (module `RunProperties`) proves what a run guarantees:
- notifier failures only add exception records, one right after each failed send;
- the loop stops at the first code the store cannot answer for;
- every code is fetched once, in order, and the judge sees exactly the price just fetched;
- a completed run sends the fail or alert notices the watch list calls for, then the end message.

All of this is then specialised to the CSV store.

`main.py` runs the single-list flow and never calls `get_description_groups`;
the model follows the code and models `get_description_groups` as a store
operation on its own.

## Model

| member | source | states |
|---|---|---|
| `Format.NatToDigits` | stock-watch/db/csv.py:54-56 | `str(n)` of a natural number is a canonical digit string (no leading zero) whose decimal value is `n` |
| `Format.IntToString` | stock-watch/db/csv.py:61-62 | `'{}'.format(code)` contains no space, and is the canonical digits of the code, preceded by `-` when negative |
| `Format.DigitsRoundTrip` | stock-watch/db/csv.py:89-93 | a canonical digit string read as a `Decimal` and printed again gives back the same text |
| `Format.NatToDigitsInjective` | stock-watch/db/csv.py:54-56 | different numbers print differently |
| `Format.IntToStringInjective` | stock-watch/db/csv.py:61-62 | different codes print differently |
| `Format.GroupThousands` | stock-watch/db/csv.py:54-56 | the `,` grouping of a digit string is well grouped (1 to 3 leading digits, then groups of `,ddd`), and removing its commas gives back the digits |
| `Format.GroupThousandsUnique` | stock-watch/db/csv.py:54-56 | every well-grouped string is the grouping of its own digits, so the grouping is the only well-grouped form |
| `Format.WellGroupedStrips` | stock-watch/db/csv.py:54-56 | a well-grouped string holds a non-empty digit string once its commas are removed |
| `Format.FormatPriceRoundTrip` | stock-watch/db/csv.py:54-56 | `'{:,.1f}'` of an integral price ends in `.0`, is well grouped before that, and its digits are worth exactly the price |
| `Format.FormatPriceInjective` | stock-watch/db/csv.py:54-56 | different threshold prices render differently |
| `Format.FormatPriceNoSpace` | stock-watch/db/csv.py:54-56 | a rendered price contains no space |
| `Format.FormatPriceUngrouped` | stock-watch/tests/db/test_csv.py:188 | the price 134 renders as `134.0` |
| `Format.FormatPriceGrouped` | stock-watch/tests/db/test_csv.py:200 | the price 2700 renders as `2,700.0` |
| `Format.FormatPrice` | stock-watch/db/csv.py:54 | `'{:,.1f}'` of an integral price ends in `.0`; the text before it is well grouped and, without its commas, is `str(p)` |
| `Format.IsDigits` | stock-watch/db/csv.py:89 | no contract of its own; the price check `str(price).isdigit()`, restricted to ASCII digits (see Left out); `CsvDb.Lookup` rejects a price cell that fails it with `Invalid(code)` |
| `Format.DigitsValue` | stock-watch/db/csv.py:93 | `Decimal(price)` of a digit string is a natural number, at least 1 when the string is non-empty with no leading zero; `Format.NatToDigits` and `Format.DigitsRoundTrip` show it undoes `str(n)` |
| `CsvDb.ErrorMessage` | stock-watch/db/csv.py:70-71 | the text of a `DbException` ends with the offending code |
| `CsvDb.ErrorMessageInjective` | stock-watch/db/csv.py:70-71 | the exception text determines both its kind (not-exist or invalid) and its code |
| `CsvDb.Column` | stock-watch/db/csv.py:19 | the description column has one entry per row, in row order |
| `CsvDb.Dedup` | stock-watch/db/csv.py:21 | `list(dict.fromkeys(xs))` has exactly the elements of `xs`, with no repeats |
| `CsvDb.FirstIndex` | stock-watch/db/csv.py:21 | the position found holds the element, and the element does not occur before it |
| `CsvDb.DedupKeepsFirstOccurrenceOrder` | stock-watch/db/csv.py:20-21 | the de-duplicated codes keep the order of their first occurrences in the input |
| `CsvDb.DedupOfDistinct` | stock-watch/db/csv.py:21 | a list without repeats is returned unchanged |
| `CsvDb.DedupIdempotent` | stock-watch/db/csv.py:21 | removing repeats twice gives the same list as once |
| `CsvDb.GetDescriptions` | stock-watch/db/csv.py:18-21 | `get_descriptions` has no duplicate and holds exactly the codes of the `description` column; the order is stated by `CsvDb.GetDescriptionsSpec` |
| `CsvDb.Direction` | stock-watch/db/csv.py:57 | the closing words of an alert are "fell below" exactly when the trigger is `under`, and "rose above" exactly when it is `over` |
| `CsvDb.GetDescriptionsSpec` | stock-watch/db/csv.py:18-21 | `get_descriptions` lists every code of the column exactly once (and nothing else), in first-occurrence order |
| `CsvDb.Matching` | stock-watch/db/csv.py:69 | the selected records are rows of the table, all with the requested code |
| `CsvDb.Lookup` | stock-watch/db/csv.py:64-93 | a failing lookup names the requested code, and fails with "not exist" exactly when no row matches |
| `CsvDb.MatchingEmpty` | stock-watch/db/csv.py:69 | no record is selected exactly when no row has the code |
| `CsvDb.MatchingTwo` | stock-watch/db/csv.py:69 | two rows with the code select at least two records |
| `CsvDb.MatchingOne` | stock-watch/db/csv.py:69 | a code on exactly one row selects exactly that row |
| `CsvDb.MatchingComplete` | stock-watch/db/csv.py:69 | every row that has the code is among the selected records |
| `CsvDb.LookupNotExist` | stock-watch/db/csv.py:73-75 | the lookup fails with the not-exist error for the code if and only if no row has the code |
| `CsvDb.LookupDuplicate` | stock-watch/db/csv.py:76-78 | two rows with the same code make the lookup fail with the invalid error for the code |
| `CsvDb.LookupSingle` | stock-watch/db/csv.py:80-93 | for a single row: the invalid error unless the trigger is exactly `over`/`under` and the price is a non-empty digit string; otherwise the digits' value and the direction |
| `CsvDb.LookupSuccessRow` | stock-watch/db/csv.py:64-93 | a successful lookup rests on exactly one row of the code, whose digits and trigger give the result |
| `CsvDb.Judge` | stock-watch/db/csv.py:45-49 | an `over` judge holds exactly at prices at or above the threshold, an `under` judge exactly at prices at or below it |
| `CsvDb.JudgeAtBoundary` | stock-watch/db/csv.py:45-49 | both directions fire at the threshold itself; one unit past it on the other side they do not |
| `CsvDb.GetJudgeFunc` | stock-watch/db/csv.py:42-50 | `get_judge_func` fails exactly when the lookup fails, with the same error, and otherwise returns the row's judge |
| `CsvDb.JudgeOverRow` | stock-watch/db/csv.py:42-47 | for the single valid `over` row of a code, the judge holds exactly when the price is at least the row's price |
| `CsvDb.JudgeUnderRow` | stock-watch/db/csv.py:42-49 | for the single valid `under` row of a code, the judge holds exactly when the price is at most the row's price |
| `CsvDb.AlertText` | stock-watch/db/csv.py:54-58 | the alert starts with the code label and the code, and ends with `下回りました。` for `under` or `上回りました。` for `over` |
| `CsvDb.AfterCode` | stock-watch/db/csv.py:54-57 | the part after the code starts with a space and ends with the direction word |
| `CsvDb.AlertTextInjective` | stock-watch/db/csv.py:54-58 | the alert text determines the code, the threshold price and the direction |
| `CsvDb.AlertTextSplit` | stock-watch/db/csv.py:54-58 | the alert is the code label, the code and the price label, followed by the rendered price, the yen label and the direction word |
| `CsvDb.AlertTextOverExample` | stock-watch/tests/db/test_csv.py:188 | code 12345 with threshold 134 `over` gives exactly `銘柄コード: 12345 が 価格: 134.0 円を上回りました。` |
| `CsvDb.AlertTextUnderExample` | stock-watch/tests/db/test_csv.py:200 | code 8267 with threshold 2700 `under` gives exactly `銘柄コード: 8267 が 価格: 2,700.0 円を下回りました。` |
| `CsvDb.MakeAlertMessage` | stock-watch/db/csv.py:52-59 | `make_alert_message` fails exactly when the lookup fails, with the same error; otherwise it is the alert text for the row's price and direction |
| `CsvDb.MakeFailMessage` | stock-watch/db/csv.py:61-62 | `make_fail_message` never fails and is the code label, the code and the failure suffix |
| `CsvDb.MakeFailMessageInjective` | stock-watch/db/csv.py:61-62 | different codes get different failure messages |
| `CsvDb.Select` | stock-watch/db/csv.py:27-39 | a group holds exactly the codes of the list whose lookup succeeds with the group's direction |
| `CsvDb.SelectAppend` | stock-watch/db/csv.py:27-39 | grouping a concatenation groups each part, in order |
| `CsvDb.SelectDistinct` | stock-watch/db/csv.py:27-39 | a group taken from a list without repeats has no repeats |
| `CsvDb.SelectKeepsOrder` | stock-watch/db/csv.py:36-39 | a group keeps the list's order: the members from the first `k` codes come first, then those from the rest |
| `CsvDb.GetDescriptionGroups` | stock-watch/db/csv.py:23-40 | the loop returns exactly two lists: the over group and the under group of `get_descriptions`, skipping codes whose lookup raises |
| `CsvDb.GroupsPartition` | stock-watch/db/csv.py:23-40 | each listed code with a successful lookup is in exactly the group of its direction, at most once; a code whose lookup fails is in neither |
| `Orchestrator.CsvStore` | stock-watch/di.py:13-15 | the store bound to `IDb` is `CsvAsDb`: its code list is `get_descriptions`, and its judge and alert message fail exactly when the code's lookup fails, with the lookup's error |
| `Orchestrator.CodeStep` | stock-watch/main.py:40-49 | one loop pass, when every send succeeds: it starts with the price fetch and has at least two events; a store error happens only after a price was fetched, and it is the error of `get_judge_func` or of `make_alert_message` |
| `Orchestrator.Loop` | stock-watch/main.py:39-49 | no contract of its own; the events and first store error of the `for` loop when every send succeeds; `Orchestrator.Main.ProcessAll` is proved against it, and `Orchestrator.LoopAfterError`, `RunProperties.LoopRuns`, `RunProperties.LoopStopsAtFirstFailure` and `RunProperties.LoopFetches` state its properties |
| `Orchestrator.Plan` | stock-watch/main.py:30-52 | the events and status of `execute` when every send succeeds: it exits early exactly when the store cannot list its codes, a completed run ends with the end message, and an aborted run carries the store error of one of the listed codes; the further properties are in `RunProperties` |
| `Orchestrator.Deliver` | stock-watch/main.py:54-72 | no contract of its own; the events as the logger sees them, with an exception record after each send the notifier rejects; `RunProperties.DeliverSends`, `RunProperties.DeliverStripLogs` and `RunProperties.DeliverLogsFollowSends` state its properties |
| `Orchestrator.Run` | stock-watch/main.py:75-84 | whatever the notifier does, a run ends with the status of `Plan`, which is `ExitedEarly` exactly when the store cannot list its codes |
| `Orchestrator.Main.constructor` | stock-watch/main.py:23-28 | the collaborators are stored, and the run starts with an empty trace and no notifier calls |
| `Orchestrator.Main.SendMessage` | stock-watch/main.py:54-58 | one notifier call: the message is sent, and an exception record follows exactly when the notifier rejects it; nothing is raised |
| `Orchestrator.Main.Alert` | stock-watch/main.py:60-66 | a store error on the alert message escapes with no send; otherwise the message is sent, with a failure logged and swallowed |
| `Orchestrator.Main.Fail` | stock-watch/main.py:68-72 | the code's failure message is sent, with a failure logged and swallowed |
| `Orchestrator.Main.Process` | stock-watch/main.py:40-49 | one pass of the loop body adds exactly the code's planned step, delivered, to the trace, and returns its store error |
| `Orchestrator.Main.ProcessAll` | stock-watch/main.py:39-49 | the loop adds the planned loop events, delivered, and stops with the first store error |
| `Orchestrator.Main.Execute` | stock-watch/main.py:30-52 | `execute` ends with the planned status and adds the planned events, delivered, to the trace |
| `Orchestrator.ExecuteMain` | stock-watch/main.py:75-84 | building `Main` and running `execute` gives exactly the trace and the status of `Run` |
| `Orchestrator.LoopErrorFromCode` | stock-watch/main.py:39-49 | a `DbException` that ends the loop was raised for one of the loop's codes |
| `Orchestrator.LoopAfterError` | stock-watch/main.py:39-49 | after a store error at some code, later codes change neither the events nor the error |
| `RunProperties.DeliverStripLogs` | stock-watch/main.py:54-72 | with the exception records removed, the delivered events are the planned ones |
| `RunProperties.DeliverSends` | stock-watch/main.py:54-72 | delivery sends the same messages, and adds one exception record per rejected send |
| `RunProperties.DeliverLogsFollowSends` | stock-watch/main.py:54-72 | every exception record comes straight after the send it reports |
| `RunProperties.DeliverAllOk` | stock-watch/main.py:54-58 | when no send is rejected, nothing is logged and the events are the planned ones |
| `RunProperties.NotifierFailuresOnlyLog` | stock-watch/main.py:54-72 | whatever the notifier does, the run's events are the plan's plus exception records, each right after a send, one per rejected send; the messages sent are the same |
| `RunProperties.DbFailureExitsEarly` | stock-watch/main.py:31-36 | when the code list cannot be read, the run sends only `fail_get_descriptions`: no fetch, no judge, no end message; then it exits |
| `RunProperties.CodeStepSpec` | stock-watch/main.py:40-49 | a code lets the loop go on if and only if its price fails, or its judge is available and the alert message exists whenever the judge holds; the sends are the code's fail or alert notice |
| `RunProperties.LoopRuns` | stock-watch/main.py:39-49 | the loop completes if and only if every code lets it go on, and then sends the notices of all codes, in order |
| `RunProperties.LoopStopsAtFirstFailure` | stock-watch/main.py:39-49 | an aborted loop stops at the first code that raises a store error; it has processed exactly the codes up to it and sent the notices of the earlier codes |
| `RunProperties.CodeStepFetches` | stock-watch/main.py:40-41 | one pass fetches the price of its own code exactly once |
| `RunProperties.LoopFetches` | stock-watch/main.py:39-41 | a completed loop fetches every listed code exactly once, in list order |
| `RunProperties.PlanOutcome` | stock-watch/main.py:30-52 | with the code list read, the run completes if and only if every code lets the loop go on, and it never exits early |
| `RunProperties.CompletedRun` | stock-watch/main.py:39-52 | a completed run fetches each code once in order, and sends the notices of all codes followed by exactly one end message |
| `RunProperties.AbortedRun` | stock-watch/main.py:39-49 | an aborted run fetches the codes up to the failing one and sends the notices of the codes before it, with no end message |
| `RunProperties.LoopJudgedAfterFetch` | stock-watch/main.py:40-48 | in the loop, a judge is requested only right after a successful fetch of the same code, and applied only to the price just fetched |
| `RunProperties.PlanJudgedAfterFetch` | stock-watch/main.py:39-48 | the whole run requests and applies judges only right after a successful fetch of the same code |
| `RunProperties.CsvCodeStep` | stock-watch/main.py:46-49 | with the CSV store, a code lets the loop go on if and only if its fetch fails or its lookup succeeds; a store error is the lookup's, raised right after the judge request |
| `RunProperties.CsvExpectedAgrees` | stock-watch/db/csv.py:52-62 | with the CSV store, the notices of a code list are each code's fail message or alert text, as the table gives them |
| `RunProperties.CsvAllAnswer` | stock-watch/main.py:39-49 | with the CSV store, every code lets the loop go on exactly when every code with a price has a valid row |
| `RunProperties.CsvAbort` | stock-watch/main.py:46-47 | an aborted loop over the CSV store ends at a listed code with a price whose lookup raised that error, just after its fetch and judge request |
| `RunProperties.CsvRunOutcome` | stock-watch/main.py:30-52 | over the CSV store the run never exits early; it completes if and only if every listed code with a price has a valid row, and then sends the expected notices and the end message; otherwise it aborts at such a code |
| `RunProperties.CsvExpectedCount` | stock-watch/main.py:39-49 | the number of expected notices is the number of failed fetches plus the number of crossed thresholds |
| `RunProperties.CsvCompletedCount` | stock-watch/main.py:39-52 | a completed run over the CSV store makes failed fetches + crossed thresholds + 1 notifier calls |

## Left out

- The LINE notifier (`stock-watch/alert/line.py`: HTTP POST and JSON error bodies). It is network I/O, modelled only as the oracle `alertOk` saying whether the k-th notifier call succeeds.
- The kabutan price source (`stock-watch/price/kabutan.py`: HTTP GET and XPath scraping). It is network I/O and foreign libraries, modelled as the per-code input `prices` (a price, or `None` for a `PriceException`).
- Configuration (`stock-watch/config.py`), log-file setup (`stock-watch/log/file.py`) and the abstract interfaces: file I/O and signatures only. The logger is the `LogException` event.
- The dependency-injection wiring (`stock-watch/di.py`, `Injector` in `execute()`): reflection, replaced by passing the collaborators to `ExecuteMain`.
- `pd.read_csv` in `CsvAsDb.__init__` and the debug `print` in `get_description_groups`: file and console I/O. The model starts from an already-parsed `seq<Row>`.
- The price cell is modelled as the text `str()` gives of it; how pandas types and renders a CSV cell is not modelled.
- Format.IsDigits: accepts the ASCII digits `0`-`9` only, whereas Python's `str.isdigit` (csv.py:89) accepts every Unicode digit character. Two cases differ from the source. (1) A price cell of other decimal digits (such as full-width ones) passes the source's check and `Decimal(...)` converts it; the model rejects it with `Invalid(code)`. (2) A price cell holding digit characters that are not decimal digits (such as the superscript `²`) passes the source's check, and then `Decimal(price)` at csv.py:93 raises `decimal.InvalidOperation`, which is not a `DbException`: `get_description_groups` does not skip the code, and `execute` stops with that exception. The model rejects such a cell with `Invalid(code)` instead.
- Fetched prices (`Decimal` in the source) are Dafny `real`, with exact subtraction. The `Decimal` subtraction at csv.py:47 and csv.py:49 rounds to the context precision (28 significant digits), but rounding never changes the sign of a non-zero difference and keeps zero at zero, so the judge's `>= 0` comparisons give the same answers as the model's.
- Exceptions other than `PriceException`, `DbException` and `AlertException` (for instance a failing logger) are not modelled. Neither is `KeyboardInterrupt`.
- The `for` loop of `execute` is the method `Main.ProcessAll`, called from `Main.Execute`; the source has it inline. The behaviour is the same.
