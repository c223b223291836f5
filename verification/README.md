# logAnalizer log loader in Dafny

This project models the log loader of logAnalizer (`src/loader/log_loader.py`).

The heart of the loader is a reverse log scanner, `BaseLogDataLoader.__read_data_from_file`. It takes the rows of a log file and walks them from the newest line to the oldest:

- a row with no fields is skipped;
- every other row is formatted;
- a reader breaker may stop the scan, and it sees the formatted record before any filter does;
- a left-to-right, short-circuiting chain of line filters decides whether the record is appended.

Three plug-in capabilities drive the scanner:

- **Formatters**:
  - the identity `BaseLineFormatter`;
  - `ServerLogFormatter`, with its query-data decoder;
  - `LocalLogFormatter`.
- **Filters**: the always-accepting `BaseLogLineFilter` and `ServerDataFilter`.
- **Breakers**:
  - the never-stopping `BaseReaderBreaker`;
  - `LastAcceptedReaderBreaker`;
  - `ServerLogTimeLastBreaker`.

The loaders `ServerDataLoader` and `LocalDataFileLoader` wire these pieces together.

Modules:

- `Wrappers`: `Option` and `Result`.
- `Text`: Python's one-character `str.split` and `str.join`.
- `DateTimes`: second-resolution datetimes and Python's order on them.
- `Externals`: the library calls the formatters make (`strptime`, `unquote`), passed in as values. It also holds the two time formats and the exceptions a formatter can raise.
- `Scanner`: the capabilities and the scanner.
  - `Walk` is the scan as a recursive function over the rows still to visit.
  - `ReadDataFromFile` is the index loop of the source, proved equal to `ReadData`.
  - It also has `_get_data_from_file`, `_get_last_data` and `BaseLogDataLoader.load`.
- `ScannerProperties`: reference definitions and the properties of the scanner.
  - The reference definitions are reverse, format-each and keep-accepted.
  - The properties cover whole-file scans, the defaults, the stopping rule, record-only breakers and the last-accepted breaker.
- `ServerLog`: the server formatter and its query-data decoder, the session filter, the time breaker and `ServerDataLoader.load`.
- `LocalLog`: the local formatter and `LocalDataFileLoader.load`.
- `ServerScenarios`: a four-line server log scanned with a time window.

Modelling choices:

- A file is `Option<seq<Row>>`, where `None` means the path is not a file.
- A formatter returns `Result`. Its `Failure` is the exception the Python code lets escape:
  - `strptime`'s `ValueError`;
  - the `IndexError` of `kv[1]` on a query segment without `=`.

  Such a failure ends the whole scan.
- The record field `datetime` is `Option<DateTime>`. `None` stands for the `''` of an empty record.

## Model

| member | source | states |
|---|---|---|
| Text.Split | src/loader/log_loader.py:181-187 | `str.split` on one character gives at least one piece and no piece holds the separator. The pieces joined by the separator give back the input, and the first piece is the text before the first separator. There is exactly one piece iff the separator does not occur. |
| Text.SplitJoin | src/loader/log_loader.py:181-187 | Splitting the join of separator-free pieces gives back those pieces. |
| Scanner.FirstRejection | src/loader/log_loader.py:121-125 | The chain stops at a filter that rejects, with every filter before it accepting. It runs to the end exactly when every filter accepts. |
| Scanner.Accepts | src/loader/log_loader.py:118-128 | A record is kept iff there is no filter list or every filter in it accepts. |
| Scanner.NonEmptyRows | src/loader/log_loader.py:106-107 | The rows the scan visits are never more than the rows of the file, and none of them is empty. |
| Scanner.NonEmptyRowsCount | src/loader/log_loader.py:106-107 | A given row occurs among the visited rows as often as in the file when it is non-empty, and never when it is empty. |
| Scanner.NonEmptyRowsCounts | src/loader/log_loader.py:106-107 | The scan visits exactly the non-empty rows of the file: every non-empty row as many times as the file holds it, and no empty row at all. |
| Scanner.VisitLine | src/loader/log_loader.py:104-130 | For one line, in this order: an empty line leaves the result unchanged; a formatter failure escapes; the breaker, given the formatted record and the current count, stops the scan; otherwise the record is appended iff the chain accepts it. |
| Scanner.WalkKeepsAccepted | src/loader/log_loader.py:103-132 | A scan that does not raise only extends the list it started from, by at most one accepted record per non-empty row. Without a breaker it never breaks. |
| Scanner.ReadData | src/loader/log_loader.py:95-132 | A successful scan has at most as many records as the file has non-empty rows, and every one of them passed every filter. |
| Scanner.GetDataFromFile | src/loader/log_loader.py:57-80 | A missing file gives `None`, which is never confused with an empty list. An existing file gives the scan's result or its escaping error. |
| Scanner.RunFilters | src/loader/log_loader.py:118-125 | The inner loop, which stops at the first rejecting filter, accepts iff every filter of the chain accepts. |
| Scanner.VisitRow | src/loader/log_loader.py:104-130 | The loop body, with its early `continue`s, `break` and exception, does for one line what the one-line step does. |
| Scanner.ReadDataFromFile | src/loader/log_loader.py:95-132 | The index loop over the reversed rows computes exactly the recursive scan. |
| Scanner.GetLastData | src/loader/log_loader.py:82-83 | Scanning under `LastAcceptedReaderBreaker` gives at most one record, and `None` only for a missing file. |
| Scanner.BaseLoad | src/loader/log_loader.py:51-52 | The base loader returns at most one raw row. |
| Scanner.LastAcceptedWalkAtMostOne | src/loader/log_loader.py:42-44 | Once a record is held, the last-accepted breaker stops the scan before a second one is appended. |
| ScannerProperties.Reverse | src/loader/log_loader.py:103 | `reversed` puts the element at position `k` from the end at position `k`. |
| ScannerProperties.FormatEach | src/loader/log_loader.py:109-111 | Formatting a list succeeds iff every row formats, and then gives each row's record in place. |
| ScannerProperties.KeepExactlyAccepted | src/loader/log_loader.py:118-130 | Every kept record is an accepted record of the input, and every accepted record is kept. |
| ScannerProperties.KeepCounts | src/loader/log_loader.py:118-130 | Filtering keeps every accepted record exactly as many times as it occurs in the input, duplicates included, and drops every rejected record. |
| ScannerProperties.WalkWithoutBreaker | src/loader/log_loader.py:103-130 | Without a breaker, the walk formats the non-empty rows newest first and escapes at the first failure. Otherwise it appends exactly the accepted records in that order. |
| ScannerProperties.ScanWithoutBreaker | src/loader/log_loader.py:97-130 | With no breaker, the scan equals the reference definition: reverse the non-empty rows, format them all, keep the accepted ones. |
| ScannerProperties.ScanRawRows | src/loader/log_loader.py:103-130 | With no formatter, no filters and no breaker, the result is the non-empty rows themselves in reverse physical order. |
| ScannerProperties.DefaultsBehaveAsNone | src/loader/log_loader.py:27-39 | Passing `[BaseLogLineFilter()]` or an empty filter list behaves like passing no list. Passing `BaseReaderBreaker()` behaves like passing no breaker. |
| ScannerProperties.WalkSplit | src/loader/log_loader.py:103-116 | The older rows are visited only when the newer rows neither raised nor broke. |
| ScannerProperties.StoppingRowExcluded | src/loader/log_loader.py:109-116 | Suppose the breaker fires on a row, asked with its 1-based index from the end, its line number and the count so far. Then the result is what the newer rows gave: the stopping record is not appended, and the older rows are never formatted, whatever they hold. |
| ScannerProperties.ExhaustedIgnoresBreaker | src/loader/log_loader.py:113-116 | A scan the breaker never stopped gives what the scan without a breaker gives. |
| ScannerProperties.WalkBroke | src/loader/log_loader.py:113-116 | A scan that broke did so at a non-empty, successfully formatted row. The breaker was asked there with that row's index from the end, its line number and the count the newer rows produced. |
| ScannerProperties.ScanStopped | src/loader/log_loader.py:113-116 | A scan the breaker stopped did so at a non-empty row `p` that formatted. The breaker was asked there with index `n - p`, line number `p` and the final count, and the result is the reference scan of the rows after `p`. |
| ScannerProperties.ScanWithBreaker | src/loader/log_loader.py:103-116 | Every successful scan with a breaker falls into one of two cases. Either the breaker never fired and the result is the reference scan of the whole file, or it fired at row `p` (index `n - p`, line number `p`, final count) and the result is the reference scan of the rows after `p`. |
| ScannerProperties.RecordBreakerResults | src/loader/log_loader.py:113-130 | With a breaker that looks only at the record, every returned record is one the breaker let through and the chain accepted. It also keeps any invariant that every formatted record keeps. |
| ScannerProperties.LastAcceptedEmpty | src/loader/log_loader.py:42-44 | Under the last-accepted breaker with no filters, the walk formats the newest non-empty row and then the second-newest. Either may raise. It stops on the second-newest after keeping the newest, or runs out with the newest alone. |
| ScannerProperties.LastAcceptedNewest | src/loader/log_loader.py:82-83 | With no filters and a non-empty row, `_get_last_data` gives exactly the formatted newest non-empty row, unless formatting it or the second-newest raises. |
| ScannerProperties.BaseLoadNewest | src/loader/log_loader.py:51-52 | `BaseLogDataLoader.load` gives exactly the newest non-empty raw row, or an empty list when there is none. |
| ServerLog.KeyValue | src/loader/log_loader.py:186-187 | A segment fails iff it has no `=`. |
| ServerLog.KeyValueSpec | src/loader/log_loader.py:186-187 | The key of a segment with `=` is the `=`-free text before the first `=`. The value is the `=`-free text from there to the second `=` or the end. |
| ServerLog.PairsSpec | src/loader/log_loader.py:185-187 | The segments decode iff each holds `=`, and then they decode pair by pair, in order. |
| ServerLog.SegmentRoundTrip | src/loader/log_loader.py:186-187 | A `key=value` segment with `=`-free key and value splits back into that key and value. |
| ServerLog.LastWithKey | src/loader/log_loader.py:184-187 | It finds the last pair with a given key, with no later pair having that key, or reports that no pair has it. |
| ServerLog.AssignLastWins | src/loader/log_loader.py:184-189 | The loop's dictionary has a key iff some pair carries it, and the value is that of the last such pair. A later duplicate overwrites an earlier one. |
| ServerLog.DecodeDataField | src/loader/log_loader.py:175-189 | `'-'` is no data. Any other field succeeds iff every `&`-segment of the unquoted text holds `=`, and then gives a non-empty dictionary. |
| ServerLog.DecodedEntries | src/loader/log_loader.py:179-189 | Each decoded key maps to the value of the last segment with that key, and no other key appears. |
| ServerLog.QueryRoundTrip | src/loader/log_loader.py:179-189 | A query string built from `&`/`=`-free pairs, which unquoting leaves alone, decodes to the dictionary those pairs assign. |
| ServerLog.FormatServerLine | src/loader/log_loader.py:150-173 | A line of any field count but 10 is the all-empty record. A 10-field line copies fields 0, 2, 6 and 9, takes its time from field 1 and its data from field 5, and fails iff parsing the time fails or decoding the data fails. A record without a time is the empty record. |
| ServerLog.ServerAccept | src/loader/log_loader.py:202-222 | It accepts iff all of these hold: the record has data, the data has key `p`, `p` equals the session id, and either no user agent is wanted or the record's agent equals the wanted one. The stored JSON string plays no part. |
| ServerLog.TimeWindowInclusive | src/loader/log_loader.py:230-238 | A timed record lets the scan go on iff its time is at or after the start and, when an end is given, at or before the end. Both bounds are inclusive. |
| ServerLog.ServerLoad | src/loader/log_loader.py:250-255 | The server loader gives `None` exactly for a missing file. |
| ServerLog.ServerLoadSound | src/loader/log_loader.py:250-255 | Every record the server loader returns has the wanted session id and agent and a time at or after the send time. |
| LocalLog.FormatLocalLine | src/loader/log_loader.py:267-277 | A line of any field count but 3 is the all-empty record. A 3-field line parses field 0 as the time, fails exactly when that fails, and copies fields 1 and 2 unchanged. |
| LocalLog.LocalLoad | src/loader/log_loader.py:284-285 | The local loader returns at most one record, and `None` only for a missing file. |
| LocalLog.LocalLoadNewest | src/loader/log_loader.py:284-285 | When the two newest non-empty local lines format, the local loader gives exactly the newest one's time, agent and data. |
| LocalLog.LocalLoadRaises | src/loader/log_loader.py:284-285 | A time that does not parse on the newest or second-newest non-empty local line makes the load fail. |
| ServerScenarios.TimeWindowBoundary | src/loader/log_loader.py:230-238 | Lines at 10:00, 10:05, 10:10 and 10:15 scanned with start 10:05 give 10:15, 10:10 and 10:05, and the scan stops at 10:00. |

## Left out

- Reading the file: `os.path.isfile`, `open`, and `csv.reader` with its delimiter and quote character (lines 85-89, 99-101, 287-288). A file is given as its rows, already split into fields; `None` stands for a path that is not a file.
- Logging: the logger set-up (lines 12-21) and the calls in `_get_data_from_file` and the scanner. They have side effects only.
- The rules of `datetime.strptime` and `urllib2.unquote`: both are parameters. `strptime` gives `None` where Python raises `ValueError`. Only the formats passed to it and the splitting around `unquote` are modelled.
- `MyCsvWriter`, `ConfigLoader`, the `TestData` fixtures and the `__main__` runner (lines 294-434): these are output plumbing, configuration-file I/O and test drivers.
- `__format_data` (lines 134-143) and `__format_device_info` (lines 191-193) are never called. `__format_ua` (lines 279-280) is nested after a `return` and cannot be reached.
- ServerLog.TimeLastBreaks: a record without a time (the empty record of a wrong-arity line) does not stop the scan. In the source, `startTime > ''` compares a datetime with a string, which Python 2 rejects with a `TypeError`. The source defines no order for that case, and the model makes "go on scanning" an explicit choice.
- Per-line error handling: the formatters' exceptions (`ValueError` from `strptime`, `IndexError` from `kv[1]`) escape `__read_data_from_file` (`src/loader/log_loader.py` lines 111, 157, 187, 273), so one malformed line ends the whole scan; the model does the same: a `Failure` ends the scan.
- DateTimes.DateTime: values are year-to-second tuples with no calendar validity check. They are compared lexicographically, as Python compares naive datetimes of the two formats used.
