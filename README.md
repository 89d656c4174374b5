# Benchmark version comparison, modelled in Dafny

This project models the core of a small benchmark-comparison service
(`backend/app.py`). Users upload CSV result files under a version label, and the
service compares the latest uploads of two labels. The model has three parts:

- **CSV ingestion** (`CsvIngest`). `parse_csv` turns the rows of a file into a
  mapping from test case to value. Only the first row can be a header: it needs
  two fields, and either its first field lower-cases to `test_case` or its
  second lower-cases to `value`. Any row becomes an entry only when it has at
  least two fields and its second field is a number. Other rows are skipped
  silently, and a repeated test case keeps its last value. The method
  `ParseCsv` follows the handler's loop and is proved equal to the function
  `Parse`. `Parse` sets the first row aside when it looks like a header
  (`HeaderDropped`) and otherwise reads every row as data with the function
  `Ingest`. Lemmas about the data rows (`Ingest`) say that the keys are those
  of the accepted rows, the last accepted value wins, and a skipped row among
  the data rows has no effect. Lemmas about whole files (`Parse`) say that
  extra fields have no effect, the header is optional, and written-out data
  parses back unchanged.
  A header added in front of data gives the same result as the data alone
  provided the data's own first row does not look like a header
  (`HeaderOptional`). Without that proviso the results can differ: a first data
  row `test_case,1` is dropped as a header on its own but kept after one
  (`HeaderNotAlwaysOptional`). A skipped first row (blank, short or non-numeric)
  still takes the header slot, because only the very first row is tested as a
  header. So a blank line before a header-like row changes the result: the
  row is then read as data (`SkippedFirstRow`, `BlankFirstRowHidesHeader`).
  Empty rows therefore can affect header detection.
- **Version log** (`VersionLog`). `versions.json` is an append-only list of
  upload records, and a missing file counts as an empty list. `VersionStore`
  holds the log file and the data directory. `Upload` checks the request,
  stores the file, parses it and appends exactly one record, whose
  `summary_count` is the size of the parsed mapping. A stored file that cannot
  be read (not UTF-8, or a field over the csv module's size limit) makes the
  handler raise after the file is stored and before the log is touched; the
  model returns an error with the file stored and the log unchanged. `find_file_for_version`
  scans the log from the newest record back. It is proved to return the
  filename of the most recent record with that label.
- **Comparator** (`Comparator`). `Compare` resolves both labels and fails
  unless both give a non-empty filename. It then parses both files and joins
  them (a missing or unreadable file is an error, as the uncaught exception
  is in the handler). The output has one table row and one chart label per key in the union
  of both key sets, in strictly ascending string order. `delta` is present
  exactly when both values are present. `pct_change` is present exactly when
  there is a delta and the first value is not zero. Each chart series charts an
  absent value as 0. The predicate `Describes` states this output, and
  `DescribesUnique` proves it is determined by the two result sets. Swapping
  the two labels negates every delta, and the set of rows with an absent delta
  stays the same. The set of rows with an absent percent change can change,
  though: against a zero baseline it is absent one way round and present the
  other (`SwappedComparison`, `PctChangeAsymmetric`).

Python's `float()` is the parameter `coerce: string -> Option<real>`, which
gives `None` where `float()` raises. `secure_filename` is the parameter
`sanitize`, and the two clock readings are string parameters.

## Model

| member | source | states |
|---|---|---|
| `Text.SortedKeys` | backend/app.py:110 | `sorted()` of a set of strings gives its members in strictly ascending order, each exactly once |
| `Text.SortedListingUnique` | backend/app.py:110 | two strictly sorted listings of the same strings are equal, so the output order depends only on the key set |
| `Text.Lower` | backend/app.py:38 | `str.lower()` on ASCII letters: keeps the length, lower-cases each character on its own, and leaves no upper-case ASCII letter |
| `Text.Below` | backend/app.py:110 | Python's `<` on `str`, which `sorted` uses: it holds only between distinct strings, and a proper prefix comes first |
| `Text.BelowTrichotomy` | backend/app.py:110 | Python's string order is total and asymmetric on distinct strings |
| `Text.BelowTransitive` | backend/app.py:110 | Python's string order is transitive |
| `CsvIngest.ParseCsv` | backend/app.py:27-57 | the handler's loop returns exactly `Parse(rows)`, and the empty map when there are no rows |
| `CsvIngest.ColumnNamesAreHeader` | backend/app.py:38 | the row `test_case,value` is recognised as a header |
| `CsvIngest.HeaderDropped` | backend/app.py:38-39 | a first row that looks like a header is discarded, even when its second field is numeric |
| `CsvIngest.HeaderOptional` | backend/app.py:38-47 | `test_case,value` followed by rows R parses like R alone, provided R's first row is not header-like |
| `CsvIngest.HeaderNotAlwaysOptional` | backend/app.py:38-47 | with `float("1") == 1`, `test_case,value` then `test_case,1` parses to `{test_case: 1}`, but `test_case,1` alone parses to the empty map |
| `CsvIngest.IngestKeys` | backend/app.py:48-56 | among the data rows, a key is in the mapping if and only if some accepted row (two or more fields, numeric second field) has it as first field |
| `CsvIngest.IngestLastWins` | backend/app.py:51-54 | for a repeated key, the value is that of the last accepted row with that key |
| `CsvIngest.SkippedRowIgnored` | backend/app.py:48-56 | an empty, short or non-numeric row anywhere among the data rows leaves the mapping as if it were absent |
| `CsvIngest.SkippedFirstRow` | backend/app.py:34-56 | a first row that is neither header-like nor an entry is dropped, and every later row is read as data, with no header test |
| `CsvIngest.BlankFirstRowHidesHeader` | backend/app.py:34-56 | with `float("1") == 1`, a blank line then `test_case,1` parses to `{test_case: 1}`, but `test_case,1` alone parses to the empty map |
| `CsvIngest.ExtraFieldsIgnored` | backend/app.py:51-54 | among the data rows, fields beyond the second never affect the mapping |
| `CsvIngest.ParseExtraFieldsIgnored` | backend/app.py:38-56 | for a whole file, cutting every row to its first two fields changes neither header detection nor the result |
| `CsvIngest.IngestSize` | backend/app.py:80 | the number of entries (`summary_count`) is at most the number of data rows |
| `CsvIngest.ReparseWritten` | backend/app.py:27-57 | a mapping written out under the header, with exactly re-readable values and in any key order, parses back to itself |
| `CsvIngest.ExampleFilesParse` | backend/tests/test_app.py:27-28 | the test's two CSV files parse to `{A: 1, B: 2}` and `{A: 1.5, B: 1.8, C: 3}` |
| `VersionLog.LatestIsNewestMatch` | backend/app.py:98-102 | the lookup is absent if and only if no record has the label; otherwise it names a record with the label that no later record shares |
| `VersionLog.LatestAfterAppend` | backend/app.py:75-82 | after an append, the appended record answers for its own label and every other label's answer is unchanged |
| `VersionLog.FindFileForVersion` | backend/app.py:98-102 | the reverse scan with early return gives exactly `Latest(log, v)` |
| `VersionLog.RequestedVersion` | backend/app.py:64-66 | the version is the non-empty form field, or else the non-empty `X-Version` header, or else missing |
| `VersionLog.VersionStore.constructor` | backend/app.py:17-21 | on a first run there is no log file and no stored file, and `Versions()` (`load_versions`, the saved log or the empty list when the file is missing) is empty |
| `VersionLog.VersionStore.Upload` | backend/app.py:59-83 | the three validation failures, in the handler's order, change nothing; otherwise the file is stored in the data directory under `StoredName`, i.e. `{version}_{timestamp}_{name}`; an unreadable file then fails with the log unchanged; a readable one makes the log `Versions()` (the old log, or the empty list when there was no log file) plus exactly one record, named by `StoredName`, with `summary_count` equal to the parsed map's size |
| `VersionLog.ReuploadResolvesToLatest` | backend/app.py:59-102 | after two uploads under one label on a first run, the label resolves to the second upload's stored name and any other label to nothing |
| `Comparator.BuildComparison` | backend/app.py:109-133 | the join loop's output satisfies `Describes`: sorted union of keys as labels, one table row per label whose `v1` and `v2` are `Get(p1, k)` and `Get(p2, k)` (`p.get(k)`: the value, or `None` when `k` is not a key), and series with 0 for absent values |
| `Comparator.Compare` | backend/app.py:90-133 | a missing or empty label is rejected first; an unresolved label (none or an empty filename) gives not-found with no table; a missing or unreadable file gives an error, the first file before the second; otherwise the output describes the two parsed latest files |
| `Comparator.RowDetermined` | backend/app.py:115-126 | the row rule (delta iff both present, `v2 - v1`; pct iff delta and `v1 != 0`, `delta / v1 * 100`) fixes each row |
| `Comparator.DescribesUnique` | backend/app.py:109-133 | the comparison output is determined by the two result sets and the labels |
| `Comparator.OneSidedKey` | backend/app.py:116-129 | a key on one side only has no delta and no percent change; its missing side is `None` in the table and 0 in the chart |
| `Comparator.SwappedComparison` | backend/app.py:115-129 | swapping the labels keeps the labels, swaps columns and series, and negates deltas; the percent change is then present where the other value is non-zero |
| `Comparator.PctChangeAsymmetric` | backend/app.py:123 | with values 0 and 1 the percent change is absent one way and -100 the other |
| `Comparator.ExampleComparison` | backend/tests/test_app.py:50-59 | rows A, B, C in that order with C's v1 absent, agreeing with the values the test checks (A's and C's); the deltas and percent changes are the exact ones over the reals, not Python's float results |

## Left out

- The Flask routing, `request`/`jsonify` and status codes. Requests are datatypes, and the error statuses are the constructors of `UploadError` and `CompareError`.
- File and JSON I/O. `versions.json` is an `Option` of a record list (absent until the first upload), and the data directory is a map from stored name to rows. Reads and writes are field updates, so a failed write cannot be expressed. One such failure comes from the input itself. The version label is not sanitised before it goes into the stored path (`os.path.join(DATA_DIR, stored_name)`). So a label such as `release/1.0` names a subdirectory that does not exist, and `file.save` raises, giving a 500 with no record appended; `Upload` returns `Success` there. Likewise the labels `./v` and `v` give stored names that are different `dataDir` keys but name the same file on disk.
- `csv.reader` tokenisation (quoting, escaping, newlines). A file is given as rows of fields, or as unreadable as a whole; which bytes make it unreadable is not modelled.
- `float()` string parsing (`inf`, `nan`, whitespace, exponents). It is the opaque parameter `coerce`.
- IEEE floating point. Values are `real`, so rounding is not modelled, and neither is the defensive `try` around the percent change, which cannot fail over reals.
- The chart's 0 for an absent value: Python appends the integer `0`, which serialises as `0` rather than `0.0`. The model has the real 0.
- `secure_filename`, `datetime.utcnow` and timestamp formatting. They are the parameters `sanitize`, `stamp` and `uploadedAt`.
- `str.lower()` on non-ASCII letters. `Lower` maps only `A`–`Z`. Header detection is still exact for every string: outside `A`–`Z` only U+212A (Kelvin sign, to `k`) and U+0130 (to `i` followed by U+0307) lower to ASCII letters, and neither `test_case` nor `value` contains `k` or `i`, so `IsHeader` gives Python's answer.
- Log records that lack a field, which `entry.get(...)` would tolerate. The model's log is written only by `Upload`, so every record has all fields.
- `MAX_CONTENT_LENGTH`, `app.run` and the module-level directory creation.
- Races between concurrent rewrites of `versions.json`.
