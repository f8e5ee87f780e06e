# IMDb OLTP application: replication bookkeeping and data preparation

A Dafny model of the parts of the IMDb OLTP application that decide what is
written where. The application stores titles on three MySQL nodes:
- node1 is the central, full replica;
- node2 holds the movies;
- node3 holds every other title type.

Modules:

- `Environment`: the nodes as the replication code sees them, through
  `db_manager.py`.
  - `execute_query` is an oracle: every call succeeds or fails at the
    environment's choice.
  - Every call is recorded in a ghost history of the `Database` object.
  - Two views of that history are used throughout: `Writes` holds the data
    statements, and `AuditRequests` holds the inserts into node1's
    `transaction_log`.
  - `get_title_by_id` is a node1 lookup that either finds the row's title
    type or reports an error.
- `Titles`: the rule that picks a title's fragment node, the insert and
  delete statements, and the loop that builds an UPDATE's SET list and
  parameters from the request payload. Both replication managers share it.
- `TransactionLog`: `TransactionLogger.log_transaction`. It sends one
  audit insert per call, always to node1, with its columns in a fixed order,
  and it swallows a refusal.
- `Recovery`: `RecoveryHandler`, the in-memory FIFO of failed fragment
  writes.
  - `recover_node(n)` drains the FIFO and replays the entries addressed
    to `n`.
  - It puts back the other nodes' entries and the failed replays, in
    their original order.
  - It counts recovered and failed replays.
  - The queue after a recovery is specified by `Kept`. Lemmas state what
    `Kept` keeps and drops.
- `Replication`: the central-first protocol of
  `src/backend/replication/replication_manager.py`.
  - node1 is written first.
  - The fragment is written only if node1 accepted.
  - A refused fragment write is logged FAILED and queued.
  - `success` is node1's answer.
  - One predicate, `CentralFirst`, states the whole effect of a write on
    the data writes, the audit inserts and the queue.
- `LegacyReplication`: the older write-both protocol of
  `src/backend/replication_manager.py`.
  - Both nodes are always written.
  - Each write is logged with its own status.
  - `success` is the conjunction of the two answers.
  - Its effect is stated by `WriteBoth`.
- `PythonText`: the three Python string operations the data script relies
  on: `str.strip`, `str.replace` and `int` on base-10 text.
- `ImdbExtract`: `data/process_imdb.py`.
  - The row filter in its evaluation order.
  - The title and genres cleaning.
  - The loop with its header row and its 40000-row cap.
  - `Scan` specifies the rows written, and whether an exception ended the
    script.

The class `ReplicationManager` in `src/backend/replication/replication_manager.py`
calls `self.log_transaction` and `self._queue_failed_replication`, but
defines neither. The model assumes they stand for
`TransactionLogger.log_transaction` and
`RecoveryHandler.queue_failed_replication`, whose parameter lists match the
calls. The code as written is modelled separately; see "Findings".

## Model

| member | source | states |
|---|---|---|
| Environment.ErrorOf | src/backend/db_manager.py:116-133 | `result.get('error')` is None exactly when the call succeeded |
| Environment.Database.ExecuteQuery | src/backend/db_manager.py:116-133 | one call appended to the history, with the request as sent and the oracle's answer; a data write extends `Writes` only, an audit insert extends `AuditRequests` only |
| Environment.Database.GetTitleById | src/backend/db_manager.py:98-114 | a read of node1 only: it answers a title or an error at the environment's choice, and adds nothing to the history of `execute_query` calls |
| Titles.Get | src/backend/replication/replication_manager.py:19-20 | `data.get(key)` on a dict (distinct keys): the value stored under `key` when the key is present, None when it is absent |
| Titles.TargetNode | src/backend/replication/replication_manager.py:23 | the fragment is never node1; it is node2 exactly when the title type is `'movie'`, node3 otherwise (the same rule as lines 75 and 127, and the legacy manager's lines 25, 68 and 111) |
| Titles.InsertParams | src/backend/replication/replication_manager.py:29-36 | six parameters: tconst, title_type, primary_title, start_year, runtime_minutes, genres from the payload, in the column order of the insert |
| Titles.Assignments | src/backend/replication/replication_manager.py:81-84 | the payload entries the UPDATE assigns, in payload order: every entry except `tconst`; never more entries than the payload |
| Titles.AssignmentsDistinct | src/backend/replication/replication_manager.py:81-84 | each column is assigned at most once, and only with an entry of the payload |
| Titles.Join | src/backend/replication/replication_manager.py:88 | `', '.join(set_clauses)` (definition only; the three lemmas below state it) |
| Titles.JoinEnds | src/backend/replication/replication_manager.py:88 | the first clause opens the joined list and the last one closes it |
| Titles.JoinAppend | src/backend/replication/replication_manager.py:88 | joining two non-empty lists is joining each with one separator between them, so every clause reaches the list, in order, with `, ` between neighbours |
| Titles.JoinSingle | src/backend/replication/replication_manager.py:88 | a single clause is joined to itself |
| Titles.UpdateSql | src/backend/replication/replication_manager.py:88 | the UPDATE statement: `UPDATE titles SET `, then exactly the joined SET clauses, then ` WHERE tconst = %s` |
| Titles.UpdateSqlClauses | src/backend/replication/replication_manager.py:88 | the first SET clause comes right after `SET`, and the last one right before `WHERE tconst = %s` |
| Titles.AssignmentsSkipKeyOnly | src/backend/replication/replication_manager.py:81-84 | no SET assignment is for `tconst`, and a payload without `tconst` is assigned entirely, in order |
| Titles.SetClause | src/backend/replication/replication_manager.py:83 | the f-string `f"{key} = %s"` (definition only; `BuildUpdate` states its use) |
| Titles.BuildUpdate | src/backend/replication/replication_manager.py:78-86 | one `key = %s` clause and one value per non-`tconst` entry, in payload order; the key value is appended last, so there is one more parameter than clauses |
| TransactionLog.LogParamsRoundTrip | src/backend/replication/transaction_logger.py:17-26 | the parameters read back as the row: node_id, operation_type, table_name, record_id, status and error_message each fill their own column |
| TransactionLog.StatusOf | src/backend/replication_manager.py:45-46 | the logged status is SUCCESS exactly when the write succeeded, FAILED otherwise |
| TransactionLog.LogRequest | src/backend/replication/transaction_logger.py:22-26 | every audit insert goes to node1 with the log statement, whatever node it describes |
| TransactionLog.LoggedRows | src/backend/replication/transaction_logger.py:17-26 | the log holds at most one row per audit insert sent |
| TransactionLog.TransactionLogger.constructor | src/backend/replication/transaction_logger.py:10-12 | the logger writes through the given database manager |
| TransactionLog.TransactionLogger.LogTransaction | src/backend/replication/transaction_logger.py:14-28 | exactly one call is added to the history, to node1, as an audit insert; no data write; the row is appended to the log exactly when node1 accepts that call (`stored` is its answer), and a refusal is not reported to the caller; status defaults to SUCCESS and table_name to `titles` |
| Recovery.KeptLength | src/backend/replication/recovery_handler.py:36-63 | pending count after recovery = pending count before - recovered |
| Recovery.KeptOthers | src/backend/replication/recovery_handler.py:59-60 | the other nodes' entries all stay, unchanged and in order |
| Recovery.KeptAddressed | src/backend/replication/recovery_handler.py:39-57 | of the entries for the recovered node, exactly the failed replays stay, in their original order |
| Recovery.KeptSubset | src/backend/replication/recovery_handler.py:36-63 | recovery adds no entry: everything left was queued before |
| Recovery.KeptUntouched | src/backend/replication/recovery_handler.py:36-63 | recovering a node nothing is queued for leaves the queue as it was |
| Recovery.RecoveryIdempotent | src/backend/replication/recovery_handler.py:36-70 | when every replay succeeded, nothing is left queued for the node |
| Recovery.RecoveryHandler.constructor | src/backend/replication/recovery_handler.py:13-16 | the handler logs through a logger on its own database, and its queue starts empty |
| Recovery.RecoveryHandler.QueueFailedReplication | src/backend/replication/recovery_handler.py:18-27 | one entry appended at the tail with the given node, operation, query, params and tconst; earlier entries unchanged |
| Recovery.RecoveryHandler.RecoverNode | src/backend/replication/recovery_handler.py:29-70 | one reply per entry addressed to the node; recovered + failed = that number; the queue becomes `Kept` (successful replays removed, order kept); the replays go to the node with each entry's own statement and parameters; one `RECOVERY_<op>` SUCCESS audit row per successful replay and none for a failed one |
| Recovery.RecoveryHandler.Drain | src/backend/replication/recovery_handler.py:36-60 | the drain loop empties the queue; the held-back entries are `Kept` of the old queue, and the counters and node calls match the replies |
| Recovery.RecoveryHandler.RecoverEntry | src/backend/replication/recovery_handler.py:37-60 | one turn of the drain loop keeps the loop's relation between entries taken, replies, held-back entries, counters, replays and audit rows |
| Recovery.RecoveryHandler.Replay | src/backend/replication/recovery_handler.py:39-53 | the entry's statement is sent to its node; a success adds one audit row `RECOVERY_<op>`, SUCCESS, with the entry's tconst; a failure adds none |
| Recovery.RecoveryHandler.Refill | src/backend/replication/recovery_handler.py:62-63 | the held-back entries go back at the tail, in order |
| Recovery.RecoveryHandler.GetPendingCount | src/backend/replication/recovery_handler.py:72-74 | the queue's length |
| Recovery.RecoverTwice | src/backend/replication/recovery_handler.py:36-70 | when a recovery fails nothing, an immediate second one recovers 0 and fails 0; the pending count drops by exactly what was recovered |
| Replication.CentralRefused | src/backend/replication/replication_manager.py:58-65 | when node1 refuses: success false, only node1 in `results`, no fragment write, one FAILED log row for node1 with its error, nothing queued |
| Replication.CentralAccepted | src/backend/replication/replication_manager.py:44-65 | when node1 accepts: the fragment is written, node1's SUCCESS row is logged before the fragment's row, `replicated_to_fragment` is the fragment's answer, and a refusal queues exactly one entry |
| Replication.ReplicationManager.Replicate | src/backend/replication/replication_manager.py:38-65 | one central-first write satisfies `CentralFirst`, and no entry for node1 is ever queued |
| Replication.ReplicationManager.ReplicateToFragment | src/backend/replication/replication_manager.py:44-57 | node1's SUCCESS row, then exactly one fragment write and its row with the fragment's status and error; an entry with the same target, statement, parameters and tconst is queued exactly when the fragment refused |
| Replication.ReplicationManager.InsertTitle | src/backend/replication/replication_manager.py:17-65 | `CentralFirst` for the insert statement and the six payload columns, routed by the payload's title type: success = node1's answer; fragment written only after node1 accepted; a refused fragment write logged FAILED and queued |
| Replication.ReplicationManager.UpdateTitle | src/backend/replication/replication_manager.py:67-117 | a failed lookup returns Title not found with no write, log or queue change; otherwise `CentralFirst` for the built UPDATE, routed by the stored title type, with the caller's isolation level |
| Replication.ReplicationManager.DeleteTitle | src/backend/replication/replication_manager.py:119-156 | a failed lookup returns Title not found with no write, log or queue change; otherwise `CentralFirst` for the delete with `(tconst,)` as the only parameter on both nodes |
| Replication.ReplicationManager.RecoverNode | src/backend/replication/replication_manager.py:158-159 | the recovery handler's contract; recovering node1 replays nothing and leaves the queue as it was |
| Replication.ReplicationManager.GetPendingReplications | src/backend/replication/replication_manager.py:161-165 | the number of queued entries |
| Replication.ReplicationManager.InsertTitleAsWritten | src/backend/replication/replication_manager.py:40-45 | as written, an insert writes node1 once and then raises AttributeError for `log_transaction`; nothing is logged or queued and the fragment is never written |
| Replication.ReplicationManager.constructor | src/backend/replication/replication_manager.py:12-15 | the logger and the recovery handler share the manager's database; the queue starts empty |
| LegacyReplication.LegacyLogRequest | src/backend/replication_manager.py:11-17 | the legacy log row goes to node1 with node_id, operation, tconst, status and error_message, in that order |
| LegacyReplication.WriteBothIntro | src/backend/replication_manager.py:43-57 | the two answers make up the outcome: both nodes in `results`, success is the conjunction |
| LegacyReplication.LegacyReplicationManager.constructor | src/backend/replication_manager.py:8-9 | the manager writes through the given database manager |
| LegacyReplication.LegacyReplicationManager.LogTransaction | src/backend/replication_manager.py:11-17 | one audit insert to node1 and no data write; its answer is ignored |
| LegacyReplication.LegacyReplicationManager.Replicate | src/backend/replication_manager.py:40-57 | `WriteBoth`: node1 then the fragment, whatever node1 answered; two log rows, node1's first, each with its own write's status and error; success is the conjunction |
| LegacyReplication.LegacyReplicationManager.InsertTitle | src/backend/replication_manager.py:19-57 | `WriteBoth` for the insert statement and payload columns, routed by the payload's title type |
| LegacyReplication.LegacyReplicationManager.UpdateTitle | src/backend/replication_manager.py:59-100 | a failed lookup returns Title not found with no write or log; otherwise `WriteBoth` for the built UPDATE, routed by the stored title type |
| LegacyReplication.LegacyReplicationManager.DeleteTitle | src/backend/replication_manager.py:102-132 | a failed lookup returns Title not found with no write or log; otherwise `WriteBoth` for the delete with `(tconst,)` as the only parameter |
| PythonText.IsSpace | data/process_imdb.py:35-36 | `str.isspace()` for one character: the ASCII whitespace and separators and the Unicode whitespace (definition only; the `Strip` lemmas state its use) |
| PythonText.ShowNat | data/process_imdb.py:31 | `str(n)`: a non-empty run of decimal digits |
| PythonText.Strip | data/process_imdb.py:35-36 | `str.strip()`: the result has no whitespace at either end and is no longer than the input |
| PythonText.StripSpan | data/process_imdb.py:35-36 | the stripped text is one contiguous piece of the input, and everything cut off on either side is whitespace |
| PythonText.StripAbsent | data/process_imdb.py:43 | stripping adds no character |
| PythonText.StripKeeps | data/process_imdb.py:35-36 | text without whitespace at its ends is its own strip |
| PythonText.StripIdempotent | data/process_imdb.py:35-36 | stripping twice is stripping once |
| PythonText.Replace | data/process_imdb.py:37-48 | `str.replace`: a replacement as long as the pattern keeps the length, and replacing a pattern by itself changes nothing; for one-character patterns the two laws below state the whole behaviour |
| PythonText.ReplaceCharSingle | data/process_imdb.py:39-48 | with a one-character pattern, a single character becomes the replacement when it is the pattern and is kept otherwise |
| PythonText.ReplaceCharAppend | data/process_imdb.py:39-48 | with a one-character pattern, the replacement of a concatenation is the concatenation of the replacements: every occurrence is replaced, and every other character is kept in order |
| PythonText.ReplaceChar | data/process_imdb.py:39-47 | replacing one character by another changes exactly its occurrences, position by position |
| PythonText.ReplaceAbsentChar | data/process_imdb.py:37-42 | `str.replace` adds no character found neither in the text nor in the replacement |
| PythonText.ReplaceRemoves | data/process_imdb.py:39-42 | replacing one character by text without it removes every occurrence |
| PythonText.ReplaceWhole | data/process_imdb.py:38 | text that is exactly the pattern becomes exactly the replacement |
| PythonText.ReplaceAbsent | data/process_imdb.py:37-42 | a pattern that cannot match leaves the text unchanged |
| PythonText.ParseInt | data/process_imdb.py:31 | `int(s)` in base 10: the whitespace `int` skips (that of `str.isspace` except \x1c-\x1f), an optional sign, then digits with single underscores between them, at most 4300 digits; otherwise ValueError (None). Accepted text ends in a digit, and a negative value was written with a minus sign |
| PythonText.ParseIntTooLong | data/process_imdb.py:31 | text whose number has more than 4300 digits (underscores, sign and whitespace not counted) makes `int` raise |
| PythonText.ParseIntStrip | data/process_imdb.py:31-35 | text `int` accepts reads as the same number after `str.strip()`, so the year the filter compares is the year written |
| PythonText.ParseDigits | data/process_imdb.py:31 | a run of at most 4300 ASCII digits reads as the number the digits spell |
| PythonText.ParseShowNat | data/process_imdb.py:31 | `int(str(n)) == n` for every natural number of at most 4300 digits, the longest `str` renders |
| ImdbExtract.YearOf | data/process_imdb.py:31 | `int(row['startYear'])`, None where that call raises; a year of `\N` never parses, so the `\N` test on the year (line 28) is what turns such a row into a skip rather than a ValueError |
| ImdbExtract.Candidate | data/process_imdb.py:27-30 | the filter conditions evaluated before the year is parsed: isAdult is `0`, startYear and runtimeMinutes are not `\N`, the title is non-empty (definition only; `Decide` states how it steers the loop) |
| ImdbExtract.Selected | data/process_imdb.py:27-31 | the whole filter apart from the cap: a candidate whose year `int` reads as 2000 or later (definition only; `Decide` and `ScanWritesSelected` state what it selects) |
| ImdbExtract.CleanGenres | data/process_imdb.py:37-43 | cleaned genres hold no comma, carriage return, newline or NUL, and have no whitespace at their ends |
| ImdbExtract.GenresMissing | data/process_imdb.py:37-38 | a genres field `\N` becomes `Unknown` |
| ImdbExtract.CleanGenresMaps | data/process_imdb.py:37-43 | on genres without a backslash, line break or NUL and with clean ends, each comma becomes a semicolon and every other character stays in place |
| ImdbExtract.CleanGenresKeeps | data/process_imdb.py:37-43 | genres that are already clean are kept as they are |
| ImdbExtract.GenresChars | data/process_imdb.py:39-42 | the genres rewrite one character at a time: a comma becomes a semicolon, carriage returns, newlines and NULs vanish, anything else stays; never longer than its input |
| ImdbExtract.GenresReplaces | data/process_imdb.py:39-42 | the four chained replaces after the missing marker are exactly that per-character rewrite |
| ImdbExtract.CleanGenresByChar | data/process_imdb.py:37-43 | for every genres text, the cleaning is the `\N` replace, then the per-character rewrite, then `strip` |
| ImdbExtract.CleanTitle | data/process_imdb.py:45-49 | a cleaned title holds no carriage return, newline or NUL, and has no whitespace at its ends |
| ImdbExtract.TitleChars | data/process_imdb.py:46-48 | the title rewrite one character at a time: carriage returns and NULs vanish, a newline becomes a space, anything else stays; never longer than its input |
| ImdbExtract.TitleReplaces | data/process_imdb.py:46-48 | the three chained replaces are exactly that per-character rewrite |
| ImdbExtract.CleanTitleByChar | data/process_imdb.py:45-49 | for every title, the cleaning is the per-character rewrite followed by `strip`: every character other than a carriage return or NUL reaches the output in order, newlines as spaces |
| ImdbExtract.CleanTitleMaps | data/process_imdb.py:45-49 | on a title without carriage returns or NULs and with clean ends, each newline becomes a space and every other character stays in place |
| ImdbExtract.CleanTitleKeeps | data/process_imdb.py:45-49 | a title that is already clean is kept as it is |
| ImdbExtract.Cleaned | data/process_imdb.py:35-54 | the output row has the header's six columns in its order, none with whitespace at its ends: the stripped tconst and title type, the cleaned title, the stripped year and runtime, the cleaned genres |
| ImdbExtract.CleanRow | data/process_imdb.py:35-52 | cleaning emits a row exactly when every field it reads is present; otherwise it raises |
| ImdbExtract.Decide | data/process_imdb.py:27-32 | a row is written exactly when it passes the filter, the cap is not reached and cleaning succeeds; the script raises exactly when `int` cannot read the year of a candidate row, or when a selected row under the cap lacks a field |
| ImdbExtract.Scan | data/process_imdb.py:25-55 | at most 40000 data rows are written |
| ImdbExtract.SelectedRowsFiltered | data/process_imdb.py:27-31 | every selected row is an input row that is not adult, has a year other than `\N` that `int` reads as 2000 or later, a runtime other than `\N`, and a non-empty title |
| ImdbExtract.ScanWritesSelected | data/process_imdb.py:25-55 | the rows written are the cleaned forms of the first selected rows, in order; without an exception they number min(selected, 40000) |
| ImdbExtract.ScanCrashedStays | data/process_imdb.py:25-31 | after an exception no later row changes the output |
| ImdbExtract.ScanWellFormed | data/process_imdb.py:27-52 | input whose rows have every field and a readable year never makes the script raise |
| ImdbExtract.EmittedClean | data/process_imdb.py:31-54 | a row the loop writes has six stripped columns, a year `int` reads as 2000 or later, a title with no line break or NUL and genres with no comma, line break or NUL |
| ImdbExtract.ScanRowsClean | data/process_imdb.py:31-54 | every row written has six columns, none with whitespace at its ends; its year reads as 2000 or later; its title has no line break or NUL; its genres have no comma, line break or NUL |
| ImdbExtract.ProcessImdb | data/process_imdb.py:15-58 | the header is written once, before the data rows, which are exactly `Scan`'s; `count` is the number of data rows, at most 40000; an exception stops the loop and keeps the rows already written |

## Left out

- Timestamps (`datetime.now()` in queued entries and the log's time column) and the server-side `UUID()` of a log row are not modelled. Nothing in the code reads them.
- Logging (`logger.info`/`warning`/`error`), the progress prints of `process_imdb` and the recovery report's `message` text are not modelled. They are output only.
- `CentralFirst` and `WriteBoth` state the data writes and the audit inserts as two separate views of the call history. How the two kinds of call interleave in time is abstracted: no contract states, for instance, that node1's SUCCESS row is sent before the fragment write. Within each view the order is stated.
- SQL semantics, connections, commit and rollback, and the `SET SESSION TRANSACTION ISOLATION LEVEL` statement are not modelled. Whether a statement succeeds is the oracle's choice; the isolation level is only carried as the string the caller passes. The central manager's `update_title` default is `READ COMMITTED`, and `execute_query`'s default is `READ-COMMITTED`; the model keeps both as written.
- Multi-line SQL literals are modelled as single-line constants with the same clauses. Whitespace inside a statement does not change what MySQL executes.
- JSON payload values are strings, integers or None. Booleans, floats, lists and objects are not modelled.
- Thread safety of `queue.Queue`, `concurrency_tester.py`, `test_concurrent_reads`, `test_concurrent_writes` and `simulate_failure` are not modelled. They concern threads and isolation races, or return canned text.
- `app.py`, `route.py` and `test_script.py` are not part of this model. They are HTTP routing and a test client.
- PythonText.ParseInt: `int` also accepts non-ASCII Unicode decimal digits. The model reads ASCII digits only. The digit limit is fixed at CPython's default of 4300; changing it with `sys.set_int_max_str_digits` or `PYTHONINTMAXSTRDIGITS`, and Pythons older than the limit, are not modelled.
- Replication.ReplicationManager.GetPendingReplications: the fixed `message` text of the returned dict is not modelled; only `pending_count` is.
- PythonText.Replace: an empty pattern (which Python handles by inserting between characters) is excluded by its precondition. The script never passes one.
- CSV and TSV quoting, escaping and file I/O are not modelled. Input rows arrive as values, and output rows are lists of fields.
- A header line missing a column (a `KeyError` in the filter) is not modelled. `Row` always has every column, and a short line gives `None` fields.

## Findings

| source | as written | input that shows it | evidently intended | confidence | as-written member | corrected member |
|---|---|---|---|---|---|---|
| src/backend/replication/replication_manager.py:45 | `insert_title` calls `self.log_transaction` (lines 45 and 59) and `self._queue_failed_replication` (line 56), which the class does not define. Whatever node1 answers, the call raises `AttributeError` right after the node1 write, so node1 may hold a row that the fragment never receives and nothing logs or queues. `update_title` (lines 97, 111) and `delete_title` (lines 138, 150) make the same calls; only the insert path is modelled as written | any insert payload | log through `TransactionLogger.log_transaction` and queue through `RecoveryHandler.queue_failed_replication`, which have exactly these parameter lists | high; not executed | Replication.ReplicationManager.InsertTitleAsWritten | Replication.ReplicationManager.InsertTitle |
