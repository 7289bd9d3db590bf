# Historical price tracker — a Dafny model

This project models the core of `HistoricalPriceTracker`. The tracker keeps
item prices from periodic snapshots in three bounded, oldest-first windows
per item:

| resolution | admission period | capacity | horizon |
|---|---|---|---|
| hourly (`1hour`) | 1 hour | 168 | one week |
| half-daily (`12hour`) | 12 hours | 60 | thirty days |
| daily (`1day`) | 1 day | 365 | one year |

The model covers the following:

- **Policy** (`policy.dfy`): the resolution table and the fixed order in
  which resolutions are visited.
- **Windows** (`windows.dfy`): a window is the model of a `deque` with
  `maxlen`. Appending past capacity drops the oldest point. Loading a stored
  list keeps its newest `maxlen` points.
- **History** (`history.dfy`): the store (item → resolution → window). It
  holds the admission gate (`should_update_interval`) and the admission of
  one price (`update_price_history`). The admission appends one point,
  stamped `now`, to every resolution whose gate is open, in policy order.
- **PriceText** (`pricetext.dfy`): the cleaning of a raw price
  (`str(...)`, `.replace(',', '')`, `.replace(' NESO', '')`, `.strip()`) and
  Python's `int()` on the result. The printing `str(n)` is modelled so that
  the parser has an inverse.
- **Ingestion** (`ingestion.dfy`): `update_from_current_prices` once the
  snapshot has been read. It validates each entry and reads its price. It
  admits the valid entries and counts the entries that were admitted to at
  least one resolution. It writes the history files only when that count is
  positive.
- **Persistence** (`persistence.dfy`): the objects `save_history_to_files`
  hands to the JSON writer, and the store `load_existing_history` rebuilds
  from the parsed files.
- **Charts** (`charts.dfy`): the labels and prices of `generate_chart_data`.
- **Statistics** (`statistics.dfy`): `get_statistics`.

Time is a `nat` count of seconds. The clock is a parameter `now`, and one
`now` serves a whole ingestion run. Label formatting for charts is a
parameter `format`.

Two behaviours of the code worth noting:

- Only prices above zero are admitted (line 166). The model rejects zero.
- One `try` block wraps the loading of all three files (line 47), and one
  wraps the saving of all three (line 73), so a failure on one file abandons
  the rest. No file-level failure is modelled (see "Left out").

## Model

| member | source | states |
|---|---|---|
| Policy.Interval | scripts/historical_price_tracker.py:22-38 | every admission period is positive and a whole number of hours |
| Policy.Capacity | scripts/historical_price_tracker.py:22-38 | every window capacity is positive |
| Policy.RetentionHorizons | scripts/historical_price_tracker.py:22-38 | capacity times period is one week for hourly, thirty days for half-daily and a year for daily, as the table's comments promise |
| Policy.OrderIsComplete | scripts/historical_price_tracker.py:22-38 | the visiting order lists every resolution exactly once, in policy order |
| Policy.PolicyOrderIsCanonical | scripts/historical_price_tracker.py:123-130 | two lists of resolutions in policy order with the same members are equal, so the list of admitted resolutions is determined by which gates are open |
| Windows.LoadFrom | scripts/historical_price_tracker.py:59-63 | a loaded window has min(stored length, capacity) points, is the newest suffix of the stored list, and is the whole list when that fits |
| Windows.Append | scripts/historical_price_tracker.py:126-129 | a window never grows past its capacity |
| Windows.AppendEvictsOldest | scripts/historical_price_tracker.py:126-129 | the appended point becomes the newest entry; below capacity nothing is lost; at capacity exactly the oldest point is evicted |
| Windows.AppendedIsLatest | scripts/historical_price_tracker.py:126-129 | after an append to a window of positive capacity, the newest point the gate reads is the point just appended |
| Windows.LoadFromAbsorbs | scripts/historical_price_tracker.py:59-63 | cutting a list to capacity before appending more entries keeps the same survivors as cutting once at the end |
| Windows.AppendAllKeepsNewest | scripts/historical_price_tracker.py:126-129 | after any run of appends the window is the newest capacity-many of the old contents followed by the new points, in arrival order |
| History.ShouldAdmit | scripts/historical_price_tracker.py:90-107 | the gate is open exactly when the item or slot is missing, the window is empty, or a full period has passed since the newest point; a point stamped after `now` keeps it shut |
| History.GateStaysOpen | scripts/historical_price_tracker.py:90-107 | once open at some time, a gate stays open at every later time while its window does not change |
| History.SettledReadsOnlyItem | scripts/historical_price_tracker.py:90-107 | whether an item's gates are all closed depends on that item's windows alone |
| History.Admit | scripts/historical_price_tracker.py:109-135 | an admission keeps every window within capacity, adds the item if new, and leaves every other item unchanged |
| History.AdmitFollowsGates | scripts/historical_price_tracker.py:123-135 | a resolution is admitted exactly when its gate was open, and the returned list is in policy order |
| History.AdmitAppendsPoint | scripts/historical_price_tracker.py:111-129 | every admitted window receives the point (now, price, name) at its newest end, via a capacity-bounded append, creating the window when it was missing |
| History.AdmitGrowsWindow | scripts/historical_price_tracker.py:126-129 | an admitted window below capacity loses nothing: it becomes the old window followed by the new point |
| History.AdmitKeepsClosedSlots | scripts/historical_price_tracker.py:124-130 | a resolution that is not admitted keeps its window's presence and contents; only an existing item can have one |
| History.NoAdmissionNoChange | scripts/historical_price_tracker.py:118-135 | an admission that admits nothing leaves the store as it was |
| History.AdmitSettles | scripts/historical_price_tracker.py:90-130 | after an admission at `now`, no gate of the item is open at `now` |
| History.SettledAdmitIsNoOp | scripts/historical_price_tracker.py:90-135 | an item whose gates are all closed admits nothing and stays as it is |
| History.AdmitIdempotent | scripts/historical_price_tracker.py:109-135 | a second admission of the item at the same `now`, whatever the name and price, admits nothing and changes nothing |
| History.FirstAdmissionAdmitsAll | scripts/historical_price_tracker.py:92-93 | a never-seen item is admitted at every resolution, in policy order |
| History.FirstAdmissionWindow | scripts/historical_price_tracker.py:119-129 | each window of a newly admitted item holds exactly the new point |
| History.FirstAdmission | scripts/historical_price_tracker.py:109-135 | a never-seen item gets all three windows, each holding the one new point |
| PriceText.RemoveAll | scripts/historical_price_tracker.py:163 | deleting a pattern never lengthens the text nor introduces a character |
| PriceText.RemoveAllAbsent | scripts/historical_price_tracker.py:163 | text that does not contain the pattern's first character is unchanged |
| PriceText.RemoveAllSkips | scripts/historical_price_tracker.py:163 | a prefix without the pattern's first character passes through unchanged |
| PriceText.RemoveAllDrops | scripts/historical_price_tracker.py:163 | an occurrence at the front is deleted |
| PriceText.RemoveCharDeletesAll | scripts/historical_price_tracker.py:163 | removing a one-character pattern deletes every copy of it, and every other character still occurs in the result exactly when it occurs in the input |
| PriceText.LeadingSpace | scripts/historical_price_tracker.py:163 | the counted prefix is all whitespace and is followed by a non-space or the end |
| PriceText.TrailingSpace | scripts/historical_price_tracker.py:163 | the counted suffix is all whitespace and is preceded by a non-space or the start |
| PriceText.Strip | scripts/historical_price_tracker.py:163 | the result is an infix of the input with only whitespace outside it and no whitespace at either end |
| PriceText.StripNoEdges | scripts/historical_price_tracker.py:163 | text without whitespace at its ends is its own strip |
| PriceText.ScanDigits | scripts/historical_price_tracker.py:165 | the scan succeeds exactly on correctly grouped digits (underscores only between digits), with the positional value |
| PriceText.ParseUnsigned | scripts/historical_price_tracker.py:165 | an unsigned literal is read exactly when it starts with a digit and is grouped, as its positional value |
| PriceText.ParseInt | scripts/historical_price_tracker.py:165 | `int()` succeeds exactly on an optionally signed digit part, with the literal's value; otherwise it is the ValueError case (digit-count limit: see "Left out") |
| PriceText.NatText | scripts/historical_price_tracker.py:163 | the text of a natural number is a non-empty run of digits |
| PriceText.NatTextValue | scripts/historical_price_tracker.py:163 | the digits of the text of `n` denote `n` |
| PriceText.ParseIntText | scripts/historical_price_tracker.py:163-165 | the model's parser inverts the model's decimal printer: parsing the text of any integer `n` gives back `n` |
| PriceText.Normalize | scripts/historical_price_tracker.py:163 | cleaning never lengthens the text, leaves no comma, and leaves no whitespace at either end |
| PriceText.ReadPrice | scripts/historical_price_tracker.py:163-165 | a raw price is read exactly when the cleaned text is an integer literal, and its value is that literal's value |
| PriceText.NormalizeIntText | scripts/historical_price_tracker.py:163 | the text of an integer has nothing for the cleaning to remove |
| PriceText.ReadPriceOfNumber | scripts/historical_price_tracker.py:163-165 | a price given as a JSON integer is read back as itself |
| PriceText.DropThousandsSeparator | scripts/historical_price_tracker.py:163 | the comma of "h,ddd NESO" is the only character the first replacement deletes |
| PriceText.DropCurrency | scripts/historical_price_tracker.py:163 | the second replacement deletes a " NESO" suffix after digits |
| PriceText.ReadThousands | scripts/historical_price_tracker.py:163 | "h,ddd NESO" is cleaned to "hddd" |
| PriceText.ReadThousandsValue | scripts/historical_price_tracker.py:163-165 | "h,ddd NESO" reads as the four-digit number hddd |
| PriceText.ReadThousandsExample | scripts/historical_price_tracker.py:163-165 | "1,000 NESO" reads as 1000 |
| PriceText.ReadWordExample | scripts/historical_price_tracker.py:164-176 | "abc" is not a number |
| Ingestion.Accept | scripts/historical_price_tracker.py:155-166 | an entry is rejected exactly when it is not an object, has a falsy name or price, or its price does not read as a positive integer; an accepted entry yields its name and that price |
| Ingestion.AcceptNumber | scripts/historical_price_tracker.py:159-166 | a named entry with a JSON integer price is accepted exactly when the price is positive, with that price |
| Ingestion.AcceptThousands | scripts/historical_price_tracker.py:159-166 | a named entry priced "h,ddd NESO" with h > 0 is accepted with price hddd |
| Ingestion.Step | scripts/historical_price_tracker.py:152-173 | one entry keeps the store well-formed; a rejected entry changes nothing; only the entry's own item may appear or change; the count grows by at most one |
| Ingestion.StepCounts | scripts/historical_price_tracker.py:168-173 | an entry is counted exactly when it is valid and at least one gate of its item is open at `now` |
| Ingestion.RejectZeroText | scripts/historical_price_tracker.py:165-166 | a named entry priced "0" parses but is skipped, since the price must be above zero |
| Ingestion.RejectNegativeText | scripts/historical_price_tracker.py:165-166 | a named entry priced "-5" parses but is skipped, since the price must be above zero |
| Ingestion.Ingest | scripts/historical_price_tracker.py:149-186 | the files are written, with the whole final store, exactly when the count is positive |
| Ingestion.ProcessSkipsInvalid | scripts/historical_price_tracker.py:155-176 | skipped entries do not affect the run: processing the valid entries alone gives the same result |
| Ingestion.ProcessCountBound | scripts/historical_price_tracker.py:166-173 | the count grows by at most one per valid entry |
| Ingestion.ProcessKeys | scripts/historical_price_tracker.py:152-173 | a run creates exactly the items of its valid entries |
| Ingestion.ProcessKeepsOthers | scripts/historical_price_tracker.py:152-173 | an item that no valid entry names is left exactly as it was |
| Ingestion.ProcessNoCountNoChange | scripts/historical_price_tracker.py:166-173 | a run that counts nothing leaves the store unchanged |
| Ingestion.StepKeepsSettled | scripts/historical_price_tracker.py:152-173 | one entry never reopens a gate of an item whose gates are all closed |
| Ingestion.ProcessKeepsSettled | scripts/historical_price_tracker.py:152-173 | the rest of a run keeps such an item settled |
| Ingestion.ProcessSettles | scripts/historical_price_tracker.py:152-173 | after a run at `now`, every item named by a valid entry has all gates closed at `now` |
| Ingestion.ProcessSettledIsNoOp | scripts/historical_price_tracker.py:152-173 | a run whose named items are all settled changes nothing and counts nothing |
| Ingestion.IngestIdempotent | scripts/historical_price_tracker.py:149-186 | ingesting the same snapshot again at the same `now` counts nothing, changes nothing and writes nothing |
| Ingestion.IngestEffect | scripts/historical_price_tracker.py:149-186 | an ingestion creates exactly the valid entries' items, leaves every other item alone, counts at most one per valid entry, and changes nothing when it counts nothing |
| Ingestion.IngestIgnoresInvalid | scripts/historical_price_tracker.py:155-176 | a snapshot and its valid entries give the same outcome |
| Ingestion.ProcessFreshItems | scripts/historical_price_tracker.py:166-173 | valid entries for distinct, never-seen items are each counted |
| Ingestion.ProcessKeepsDense | scripts/historical_price_tracker.py:152-173 | a run keeps a store without empty windows or data-less items that way |
| Ingestion.WrittenFilesReload | scripts/historical_price_tracker.py:45-84 | starting from a store loaded from files whose lists are all non-empty (as every save writes them), the files an ingestion writes load back as exactly the store it ends with |
| Ingestion.IngestOne | scripts/historical_price_tracker.py:152-173 | a one-entry snapshot with an accepted entry is one admission, counted when something was admitted |
| Ingestion.PotionFirstRun | scripts/historical_price_tracker.py:109-186 | the first ingestion of "1,000 NESO" counts the item and gives each of its windows the one point |
| Ingestion.PotionAfterHalfAnHour | scripts/historical_price_tracker.py:90-186 | half an hour later the same snapshot counts nothing, changes nothing and writes nothing |
| Ingestion.SeededHourLater | scripts/historical_price_tracker.py:90-135 | between one and twelve hours after an item's only point, only the hourly window gains the new point |
| Ingestion.PotionAfterAnHour | scripts/historical_price_tracker.py:90-186 | an hour and five minutes after the first run the item is counted and only its hourly window grows, to two points |
| Persistence.SaveFile | scripts/historical_price_tracker.py:78-81 | a resolution's file names exactly the items with a non-empty window there, each with that window |
| Persistence.SaveImage | scripts/historical_price_tracker.py:71-84 | a save writes one file per resolution |
| Persistence.LoadSlots | scripts/historical_price_tracker.py:55-63 | an item gets one capacity-bounded window per file that names it |
| Persistence.LoadImage | scripts/historical_price_tracker.py:45-63 | a load yields a well-formed store holding exactly the items named in some file |
| Persistence.LoadKeepsNewest | scripts/historical_price_tracker.py:59-63 | a loaded window is the newest capacity-many points of the stored list, in stored order |
| Persistence.PruneSlots | scripts/historical_price_tracker.py:80-81 | pruning keeps exactly the non-empty windows, unchanged |
| Persistence.Prune | scripts/historical_price_tracker.py:79-81 | pruning keeps exactly the items with some data |
| Persistence.SaveLoadSlots | scripts/historical_price_tracker.py:55-81 | one item's saved windows load back as its non-empty windows |
| Persistence.SaveLoadItems | scripts/historical_price_tracker.py:45-84 | an item comes back from a save and load exactly when it had a non-empty window |
| Persistence.SaveLoadRoundTrip | scripts/historical_price_tracker.py:45-84 | saving and loading back gives the store without its empty windows and data-less items |
| Persistence.DenseSurvivesSave | scripts/historical_price_tracker.py:45-84 | a store without empty windows or data-less items survives a save and load unchanged |
| Persistence.LoadedIsDense | scripts/historical_price_tracker.py:45-63 | a store loaded from files with non-empty lists has no empty windows and no data-less items |
| Persistence.AdmitKeepsDense | scripts/historical_price_tracker.py:109-130 | an admission keeps a store free of empty windows and data-less items |
| Charts.Prices | scripts/historical_price_tracker.py:227 | the price series has one entry per point, in stored order |
| Charts.ChartData | scripts/historical_price_tracker.py:198-227 | no chart exactly when the item, its slot or its points are missing; otherwise one label and one price per point, in stored order, each label made from the point's time |
| Charts.PricesAfterAppend | scripts/historical_price_tracker.py:126-129 | after an append the prices are the old ones, the oldest dropped at capacity, then the new price |
| Charts.ChartDataIsPrices | scripts/historical_price_tracker.py:227 | a chart's data is the price series of its window |
| Charts.ChartAfterAdmit | scripts/historical_price_tracker.py:198-227 | after an admission, an admitted resolution's chart is the previous prices, the oldest dropped when full, then the new price |
| Charts.ChartOfOnePoint | scripts/historical_price_tracker.py:223-227 | a one-point window charts as one label and one price |
| Charts.ChartOfNewItem | scripts/historical_price_tracker.py:198-227 | a newly admitted item charts at every resolution as the single label for `now` and the single new price |
| Statistics.Summarize | scripts/historical_price_tracker.py:258-262 | the loop counts the items with a non-empty window at the resolution and sums their window lengths |
| Statistics.GetStatistics | scripts/historical_price_tracker.py:251-271 | the total is the number of items, and every resolution has its two sums and its capacity |
| Statistics.ItemsWithDataBound | scripts/historical_price_tracker.py:254-260 | no more items have data at a resolution than there are items |
| Statistics.PointsBounds | scripts/historical_price_tracker.py:259-262 | on a well-formed store the point total lies between the number of items with data and that number times the capacity |

## Left out

- Reading the snapshot file, JSON parsing and writing, the file system, and the
  `try`/`except` blocks that turn any I/O failure into a logged error and a
  return value of 0 are not modelled. The snapshot arrives as a sequence of
  already-parsed entries, and the written files are returned as an `Image` value.
- A failure partway through `save_history_to_files` or
  `load_existing_history` is not modelled. Both wrap all three files in one
  `try` block, so a failure on one file also skips the files after it; the
  code does not isolate failures per file.
- `update_from_current_prices` catches any other exception raised mid-run,
  returns 0 and skips the save while keeping the in-memory changes. This
  path is not modelled.
- The clock: the source calls `datetime.now()` in every gate check and once
  per admission, so the gate time and the stored timestamp can differ by
  microseconds. The model uses one `now` per run.
- ISO-8601 timestamp text, parsing it with `fromisoformat`, the `'Z'`
  replacement, and the `TypeError` from mixing naive and aware times are not
  modelled. Timestamps are seconds.
- Generation and export of charts: `strftime` is replaced by the `format`
  parameter, and its exception fallback (the raw timestamp) is not modelled.
  The dataset label, description and colours are not modelled. Nor is
  `export_chart_data_for_web`, which only writes a file.
- The `description` strings of the policy table are not modelled, and
  neither are they in the statistics.
- Charts.ChartData: for a resolution name outside the table the source
  returns None (lines 203-204); such names cannot be expressed, because
  resolutions are a datatype.
- Ingestion.Accept: snapshot values modelled are integers, strings and
  missing values. Floats, booleans, lists and nested objects as prices, and
  non-string names, are not modelled.
- PriceText.ParseInt: only ASCII digits are recognised, whereas Python's
  `int()` also accepts the other Unicode decimal digits. Nor is CPython's
  limit on the length of decimal text modelled: `int()` raises ValueError on
  a digit part of more than 4300 digits (the default of
  `sys.set_int_max_str_digits`), so the source skips such an entry, while
  the model accepts it with its value.
- Logging, `processed_count` (it only feeds a log line), `__init__`'s
  directory creation and `main` are not modelled.

