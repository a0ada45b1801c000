# Archive service: selection, codec loops and job status

This project models the job engine of the `archive-service` Go repository.
The service compresses the files of a directory into a zip archive and
extracts the entries of a zip archive back to disk. Each job is recorded in a
table (`archive` or `extract`). It runs either inline or, when
`background` is set, later. The model covers:

- **`getListOfFileNames` / `sortFileSizeDescend`.** This picks at most 10 files
  of a directory. With a `|`-separated name filter, it takes matching
  non-directories in listing order. Otherwise it takes the largest
  non-directories, excluding names that occur inside the archive name. The
  answer is a fixed array of 10 names padded with "".
  (module `ArchiveSelection`, with `NameFilter`)
- **`compress` / `appendFiles`.** This writes one zip entry per selected name
  longer than one byte, in order, and stops at the first failure.
  (module `Compress`)
- **`extractFiles`.** This walks the zip entries in archive order. It chooses
  entries by the name filter, by base-6 "partial extraction" indices, or takes
  them all. Each chosen entry becomes a directory or a file at
  `filepath.Join(dir, name)`, and the walk stops at the first failure.
  (module `Extraction`, with `Strconv`)
- **The job life cycle of both services.** `insertRecordToDB` assigns the id
  and status "new". A background job stops there. An inline job runs
  `archiveFiles` / `extractFiles`, and only on success sets "done" and
  persists it. `GetStatus` returns the zero request for an unknown id.
  (modules `ArchiveServices`, `ExtractServices`, `Store`)
- **`Request.Validate` and `Request.PrepareOutput`.** (module `Models`)

The file system and zip containers are not modelled as state. Each service
method receives an environment value (`Io.ArchiveEnv`, `Io.ExtractEnv`) that
holds what the Go code would observe:

- directory listings;
- file contents;
- archive entries;
- the paths or entry positions at which an I/O step fails.

`compress` returns the entries its container ends up holding. `extractFiles`
returns the sequence of file-system effects it has: a directory made, a file
written, or a file created and left partly written.

The job table is a class holding a map from id to row. The request is a class
whose `id` and `status` the services update in place. The uuid and the store's
creation timestamp are parameters (`id`, `now`).

Go's own library behaviour is written out where the code depends on it:

- `len` counts UTF-8 bytes (`Text.Utf8Len`).
- `strings.Split`, `strings.Contains`, `strings.ToLower`, `filepath.Ext`,
  `strings.TrimSuffix` and `filepath.Join` / `filepath.Clean` are modelled in
  `Text`.
- `strconv.ParseInt(s, 6, 12)` is modelled in `Strconv`.

### Behaviour of the code worth knowing

- **Extracted paths may leave the target directory.** The extraction target
  is `filepath.Join(dir, name)`, and nothing checks where it lands. An entry named `../x`
  extracted into `/d` is written to `/x` (`Extraction.EntryCanEscape`).
- **Indices are read in base 6 and only with a `|`.**
  - Partial-extraction indices are read with `strconv.ParseInt(part, 6, 12)`,
    and the error is ignored. "10" therefore means index 6, i.e. the entry at
    0-based position 5 (`Extraction.Base6Indices`).
  - A part that does not parse selects nothing.
  - A too-large part is clamped to 2047, and a too-small negative one to -2048
    (`Strconv.UnsignedOverflowClamps`, `Strconv.NegativeNumerals`).
  - Index mode is only on when `partialExtraction` contains a `|`, so a single
    index such as "2" extracts every entry (`Extraction.SingleIndexExtractsAll`).
- **Size mode excludes every substring of the archive name.** It excludes every
  file whose name is a *substring* of the archive name, not only the archive
  itself.
- **Equal sizes have no defined order.** The size sort is `sort.Slice`, which
  is not stable, so the model allows any size-descending order of the listing.
- **The name filter needs two bytes.** It is used only when
  `len(filteredNames) > 1`, so a one-byte filter is ignored.
- **Short names are dropped.** `compress` skips names of at most one byte, and
  so never archives a selected one-character file.
- **The archive path has no separator.** The zip is created at `dir + file`,
  with no separator, while source files are read from `dir + "/" + name`. The
  archive opened by `extractFiles` is likewise `dir + file`.
- **The in-memory status can say "done" when the row does not.** When the
  codec step succeeds but the status update fails, the request still says
  "done" in memory, because the field is set before the update.
- **Parents are not created before extracting a file.** File entries are
  opened for writing without creating missing parent directories. A missing
  parent is an output-creation failure.

## Model

| member | source | states |
|---|---|---|
| Models.Request.constructor | services/archive-service.go:106 | the zero `models.Request{}`: every field empty, false or 0 |
| Models.Request.Validate | models/request.go:23-48 | no error iff the lower-cased action is "archive"/"extract" with `file` and `dir` set, or "get" with `id` set; "invalid validation operation" iff the action is none of the three |
| Models.FileCheckedBeforeDir | models/request.go:25-40 | for "archive"/"extract" an empty `file` gives "file is required" whatever `dir` is; then an empty `dir` gives "dir is required"; otherwise no error |
| Models.GetChecksOnlyId | models/request.go:41-45 | for "get" only `id` matters: two requests with the same `id` validate alike, and an empty `id` gives "id is required" |
| Models.ValidateIgnoresCase | models/request.go:24 | validating the lower-cased action is the same as validating the action |
| Models.UpperCaseActions | models/request.go:24-40 | "ARCHIVE" and "Extract" are accepted for a request with `file` and `dir` |
| Models.Request.PrepareOutput | models/request.go:52-55 | copies `id` and `status` from the argument; every other field is unchanged |
| Store.Table.Insert | database/db.go:95-113 | reports success iff the id was not present, and then adds exactly that row with the store's timestamp; otherwise the table is unchanged |
| Store.Table.Update | database/db.go:141-170 | reports success iff a row has the id; the new rows are the old ones with that row's status replaced |
| Store.Table.Select | database/db.go:128-139 | a row iff the id is present, and then the row stored under it |
| Store.WithStatus | services/archive-service.go:88-97 | `UPDATE … SET status=? WHERE id=?`: same keys, the matching row gets the status, every other row is unchanged |
| Store.WithStatusIdempotent | services/archive-service.go:88-97 | setting the same status twice is the same as setting it once |
| NameFilter.MapOf | services/archive-service.go:165-171 | the filter map's keys are exactly the pieces, each mapped to itself |
| NameFilter.NameModeIff | services/archive-service.go:166-181 | the filter map is non-empty iff `len(filteredNames) > 1` |
| NameFilter.LookupIff | services/extract-service.go:83-88 | a name's lookup is non-empty iff the filter is on, the name is non-empty and it is one of the pieces |
| Text.Utf8Len | services/archive-service.go:133 | Go's `len`: at least the number of characters, zero only for "" |
| Text.LongerThanOneByte | services/archive-service.go:133 | `len(s) > 1` iff `s` has two or more characters, or one non-ASCII character |
| Text.ToLower | models/request.go:24 | same length, each character lowered |
| Text.ToLowerIdempotent | models/request.go:24 | lowering twice is lowering once |
| Text.Split | services/archive-service.go:167 | at least one piece, no piece holds the separator, more than one piece iff the separator occurs |
| Text.SplitJoin | services/archive-service.go:167 | joining the pieces with the separator gives back the string |
| Text.Ext | services/archive-service.go:184 | the extension is a suffix of the name: either "" when the last '/'-separated element has no '.', or the part from the last '.' of that element on, holding no further '.' and no '/' |
| Text.Stem | services/archive-service.go:184 | the name is its stem followed by its extension |
| Text.ContainsTrivial | services/archive-service.go:195 | every name contains "" and itself, so neither the archive's own name nor "" is ever selected by size |
| Text.JoinEscapes | services/extract-service.go:109-112 | for plain names `d` and `x`, `filepath.Join("/d", "../x")` is "/x": the joined path leaves the directory |
| Strconv.ParseUintFrom | services/extract-service.go:92 | the value stays in 0..4095; a syntax error has value 0, a range error 4095 |
| Strconv.ParseInt | services/extract-service.go:92 | the value stays in -2048..2047; a syntax error has value 0; a range error is clamped to 2047 exactly when the part does not start with '-', and to -2048 otherwise |
| Strconv.UnsignedOverflowClamps | services/extract-service.go:92 | every unsigned base-6 numeral worth 2048..4095 gives 2047 with a range error |
| Strconv.NegativeNumerals | services/extract-service.go:92 | '-' and a base-6 numeral worth at most 2048 gives the negated value without error; worth 2049..4095 it gives -2048 with a range error |
| Strconv.OverflowPrefixClamps | services/extract-service.go:92 | leading digits worth more than 4095 give a range error whatever follows: 2047, or -2048 after a '-' |
| Strconv.ParseIntDigits | services/extract-service.go:92 | a base-6 numeral below 2048 parses to its base-6 value without error |
| Strconv.BadLeadingDigit | services/extract-service.go:92 | a part whose first digit is not 0-5 parses to 0 with a syntax error |
| Strconv.Examples | services/extract-service.go:92 | "2" is 2, "10" is 6, "6" is a syntax error with 0, "55555x" is a range error clamped to 2047, "-1" is -1 |
| ArchiveSelection.SortFileSizeDescend | services/archive-service.go:205-209 | the array afterwards is a permutation of its old contents with sizes non-increasing |
| ArchiveSelection.BuildFileNames | services/archive-service.go:164-171 | the filter map: the pieces of `filteredNames` when `len(filteredNames) > 1`, else empty |
| ArchiveSelection.SelectByName | services/archive-service.go:181-191 | the 10 slots hold, in listing order, the first at most 10 files with a non-empty name that are not directories and whose stem looks up non-empty, then "" |
| ArchiveSelection.SelectBySize | services/archive-service.go:193-199 | the 10 slots hold, in the sorted order, the first at most 10 non-directories whose name does not occur in the archive name, then "" |
| ArchiveSelection.GetListOfFileNames | services/archive-service.go:163-203 | an unreadable directory gives its error; otherwise the result is a selection of that listing (name mode when the filter map is non-empty, else size mode over some size-descending order) |
| ArchiveSelection.Qualifying | services/archive-service.go:182-199 | the qualifying files, no more of them than listed, each passing the per-file test |
| ArchiveSelection.Take | services/archive-service.go:175 | the first `n` elements, or all when fewer |
| ArchiveSelection.Picks | services/archive-service.go:175 | never more than 10 files are picked |
| ArchiveSelection.Slots | services/archive-service.go:174 | always exactly 10 slots |
| ArchiveSelection.PicksSound | services/archive-service.go:173-199 | at most 10 picks, in listing order (a subsequence), each passing the per-file test |
| ArchiveSelection.EarlyQualifierPicked | services/archive-service.go:186-188 | a qualifying file preceded by fewer than 10 qualifying files is picked |
| ArchiveSelection.SlotsArePrefix | services/archive-service.go:174-198 | a slot is non-empty iff it lies within the picks |
| ArchiveSelection.SelectionShape | services/archive-service.go:173-202 | every selection has exactly 10 slots and the "" padding is a suffix |
| ArchiveSelection.NameSelection | services/archive-service.go:166-191 | in name mode each pick is a listed non-directory whose stem is a non-empty filter piece, picks follow listing order, and the first 10 such files are picked |
| ArchiveSelection.NameQualifies | services/archive-service.go:183-186 | in name mode a file qualifies iff its name and stem are non-empty, it is not a directory and its stem is a filter piece |
| ArchiveSelection.SizeSelection | services/archive-service.go:193-208 | in size mode no pick is a directory or a substring of the archive name, picked sizes do not increase, and a qualifying file left out is no larger than any pick and left out only when 10 are picked |
| ArchiveSelection.QualifyingMembers | services/archive-service.go:194-195 | a file is among the qualifying ones iff it is listed and passes the test |
| ArchiveSelection.QualifyingSubsequence | services/archive-service.go:194-195 | the qualifying files keep listing order |
| Compress.AppendFile | services/archive-service.go:142-161 | on success the entry is named after the file, is not a directory and holds the bytes of `dir + "/" + name`; a failure names the file |
| Compress.LongNames | services/archive-service.go:132-133 | the names handed to `appendFiles` are exactly the listed names longer than one byte |
| Compress.LongNamesInOrder | services/archive-service.go:132-133 | those names keep the order of the selection (a subsequence of it) |
| Compress.Compress | services/archive-service.go:119-140 | no container and "failed to open zip for writing" when `dir + file` cannot be created; otherwise the entries and error of the entry loop |
| Compress.AppendAllSuccess | services/archive-service.go:132-137 | a finished loop wrote exactly one entry per name longer than one byte, in order, named after the file and holding its bytes |
| Compress.AppendAllFailure | services/archive-service.go:132-158 | a failed loop stopped at a long name whose `appendFiles` failed with that error; the entries are those of the names before it, and later names were not touched |
| Compress.ShortNamesSkipped | services/archive-service.go:133 | "" and one-character ASCII names are never archived |
| ArchiveServices.NewRow | services/archive-service.go:74-81 | the inserted row has the job's id, file, directory, status "new", no partial extraction and the store's timestamp |
| ArchiveServices.ArchiveService.Init | services/archive-service.go:27-29 | the service uses the given table |
| ArchiveServices.ArchiveService.InsertRecordToDB | services/archive-service.go:74-86 | sets `id` and status "new" on the request; succeeds iff the id is new, adding exactly the job's row; on failure the table is unchanged and the error is "failed to insert archive" |
| ArchiveServices.ArchiveService.UpdateStatus | services/archive-service.go:88-97 | succeeds iff the job's row exists, and writes the request's status into it |
| ArchiveServices.ArchiveService.GetStatus | services/archive-service.go:99-117 | a fresh request with the row's id, file, directory, status and creation time; the zero request for an unknown id |
| ArchiveServices.ArchiveService.ArchiveFiles | services/archive-service.go:60-72 | a listing error, or a selection of the directory followed by `compress` of exactly that selection |
| ArchiveServices.ArchiveService.InitiateArchive | services/archive-service.go:46-58 | on a selection or compression error, that error with status and table unchanged; on success status "done" in the request and the row, and the update error iff the row is missing |
| ArchiveServices.ArchiveService.CreateArchive | services/archive-service.go:31-44 | insert failure returns its error; a background job ends inserted with status "new" and nothing archived; an inline job ends with its row "done" after a successful run, and "new" with the run's error otherwise |
| Extraction.ModeIff | services/extract-service.go:71-80 | name mode iff `len(filteredNames) > 1`; index mode iff not and `partialExtraction` contains the separator; all entries otherwise |
| Extraction.Step | services/extract-service.go:103-133 | a chosen entry fails iff it cannot be opened, or it is a file whose output cannot be created or whose copy fails; on success its one effect is the directory made or the file written at `Join(dir, name)`; a directory fails only on opening |
| Extraction.Extract | services/extract-service.go:59-66 | an archive that does not open at `dir + file` gives "failed to open file" and no effect |
| Extraction.Chosen | services/extract-service.go:82-101 | the chosen positions are in range, strictly increasing, each selected, and every selected position is among them |
| Extraction.ReadFilters | services/extract-service.go:60-80 | the flags and filter map agree with the mode: name mode iff `len(filteredNames) > 1`, index mode iff not and the split of `partialExtraction` has several parts |
| Extraction.FindIndex | services/extract-service.go:90-97 | found iff some part parses to position + 1 |
| Extraction.IsSelected | services/extract-service.go:83-101 | the entry passes the filter in force exactly when the mode selects it: a non-empty lookup of its stem in name mode, a part parsing to its position + 1 in index mode, always otherwise |
| Extraction.ExtractEntry | services/extract-service.go:103-133 | the effects and error of one chosen entry |
| Extraction.ExtractEntries | services/extract-service.go:82-134 | the effects and error of walking the entries in archive order from position 0 |
| Extraction.ExtractFiles | services/extract-service.go:59-136 | the effects and error of `extractFiles` on the request's fields |
| Extraction.NameModeSelects | services/extract-service.go:83-88 | in name mode an entry, directory or not, is extracted iff its stem is non-empty and one of the filter pieces |
| Extraction.IndexModeSelects | services/extract-service.go:89-100 | in index mode the entry at position `i` is extracted iff some part parses without a syntax error to `i + 1` |
| Extraction.SingleIndexExtractsAll | services/extract-service.go:71-80 | with no name filter and no separator in `partialExtraction`, every entry is chosen |
| Extraction.Base6Indices | services/extract-service.go:92-93 | the parts "2" and "10" select positions 1 and 5, not position 9 |
| Extraction.ClampedIndex | services/extract-service.go:92-93 | the part "55555x" selects position 2046 and no other |
| Extraction.ExtractSuccess | services/extract-service.go:82-134 | a finished walk has one effect per chosen entry, in archive order: the directory made or the file written at `Join(dir, name)` |
| Extraction.ExtractFailure | services/extract-service.go:103-132 | a failed walk stopped at a chosen entry whose step failed with that error; the effects are those of the entries before it plus its own partial file, and no later entry is touched |
| Extraction.EntryCanEscape | services/extract-service.go:109-127 | for plain names `d` and `x`, an entry "../x" extracted into "/d" is written to "/x" |
| ExtractServices.NewRow | services/extract-service.go:149-156 | the inserted row has the job's id, file, directory, status "new", partial extraction and the store's timestamp |
| ExtractServices.ExtractService.Init | services/extract-service.go:27-29 | the service uses the given table |
| ExtractServices.ExtractService.InsertRecordToDB | services/extract-service.go:149-161 | sets `id` and status "new" on the request; succeeds iff the id is new, adding exactly the job's row; on failure the table is unchanged and the error is "failed to insert extract" |
| ExtractServices.ExtractService.UpdateStatus | services/extract-service.go:138-147 | succeeds iff the job's row exists, and writes the request's status into it |
| ExtractServices.ExtractService.GetStatus | services/extract-service.go:163-181 | a fresh request with the row's id, file, directory, status and creation time; the zero request for an unknown id |
| ExtractServices.ExtractService.InitiateExtract | services/extract-service.go:45-57 | on an extraction error, that error with status and table unchanged; on success status "done" in the request and the row, and the update error iff the row is missing |
| ExtractServices.ExtractService.CreateExtract | services/extract-service.go:30-43 | insert failure returns its error; a background job ends inserted with status "new" and nothing extracted; an inline job ends with its row "done" after a successful extraction, and "new" with its error otherwise |

## Left out

- The HTTP handlers, the router, `main.go` and server start-up are left out. They are request parsing, JSON encoding and wiring.
- `task/task.go` is left out:
  - the background sweep launches one goroutine per job, which is concurrency;
  - the pending-job query is SQL with row scanning;
  - `ExtractBackgroundFile` has an empty body.
- The SQL connection, prepared statements, the schema scripts and the `context` deadlines are left out. The store is a map whose insert fails only on an id already present and whose update fails only on a missing id.
- Uuid generation and the database's creation timestamp are left out; both are parameters.
- Logging is left out.
- The zip byte format, deflate, file modes and permissions are left out, as is the `os.Remove` of an old archive before it is re-created. A container is its sequence of entries.
- `io.Copy` streaming is left out, along with the order of the deferred `Close` calls.
- Compress.AppendAll: an entry whose `io.Copy` fails part-way may remain truncated in the container. The model omits that entry and keeps only the entries written before it.
- ArchiveServices.ArchiveService.GetStatus: `Scan` errors other than a missing row are not modelled, so the method never returns an error. The same holds for ExtractServices.ExtractService.GetStatus.
- Text.ToLower: only `A`-`Z`, U+0130 and U+212A are lowered, since these are the only characters Go lowers to ASCII letters. Other characters are left as they are, which is enough to compare the result with "archive", "extract" and "get".
- Io.ExtractEnv: the failures of `zip.File.Open` and `io.Copy` are keyed by entry position, not by their underlying cause. Errors returned as-is from the Go library are represented by which step failed and the name or path involved, not by their text.
