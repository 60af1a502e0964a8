# A model of the dl-debian mirror checker

`check.py` keeps a partial Debian mirror complete. It reads the index files
of the archive (`Packages` lists for binaries, `Sources` lists for source
packages, plain or gzip-compressed) into an SQLite cache. It lists the files
under the local `pool` directory, or reloads that listing from the cache
when it is fresh. It reports the listed files that are absent or have the
wrong size, and the pool files no index lists. Finally it deals the missing
paths into job files for parallel `wget` runs.

This project models that core in Dafny and proves what it computes. It has
these modules:

- `Results`: `Option` and `Result`, the latter standing for a Python
  exception that aborts the run.
- `Text`: the Python string operations the parsers rely on. These are
  `rstrip`/`lstrip`, ASCII `lower`, `find`, `split(" ")`, `str.count`,
  `posixpath.join` and `int()` on decimal text.
- `StringOrder`: Python's code-point order on strings, as used by `sorted`.
- `IndexLines`: `_is_key`, `_get_val`, the entry a parser emits, and the
  split of an index into records at blank lines.
- `Packages`: `_packages`, proved equal to a record-by-record reading.
- `Sources`: `_sources`, proved equal to a record-by-record reading.
- `Store`: the four tables (`catalog`, `package`, `pool`, `pool_scanned`)
  as sequences of rows in table order, with the invariant the checker
  keeps.
- `Catalog`: `_unwanted`, the choice of parser from the file name, `parse`
  (reuse a cached catalog or read it afresh) and `set_dists_db`.
- `Pool`: the pool marker file and `set_pool` (load or rescan).
- `Reconcile`: `find_missing` and `find_excess`.
- `Jobs`: the path of the mirror URL, the `--cut-dirs` count and the split
  of the URLs into job files (`wget`).

Some inputs are outside the model and become parameters:

- the file system: the decompressed lines, modification time and size of an
  index; the files a pool scan finds; the sizes on disk;
- the clock (`now`);
- the marker file's contents, as a map from pool root to time.

## Model

| member | source | states |
|---|---|---|
| IndexLines.KeyValue | check.py:122-126 | when a line matches key `b` (case-insensitive `b:` prefix), its first colon is the key's, so `_get_val` returns the left-stripped text after `b:` |
| IndexLines.RecordsRoundTrip | check.py:150-154 | splitting an index at blank lines into records and joining them back with one empty line between records gives the original lines, blank lines normalised to empty |
| Packages.ParsePackages | check.py:128-163 | on success the returned count equals the number of entries handed to the inserter, and every entry names a non-empty file |
| Packages.PackagesFollowRecords | check.py:138-163 | `_packages` raises exactly when some `Size:` value is not an integer; otherwise it emits, in order, one entry per blank-line-separated record whose last `Filename:` is non-empty, with that record's last `Size:` and `MD5sum:` (or none) |
| Sources.ParseSources | check.py:165-205 | on success the returned count equals the number of entries handed to the inserter |
| Sources.EmitMatches | check.py:181-186 | `finish()` inserts each listed file joined to the directory, in order, and raises exactly when some listed size is not an integer |
| Sources.StepReadsClass | check.py:188-202 | the loop body's tests, in their order, act on a line only through its class: blank, indented with its fields, the `Checksums-Sha256:` header, a `Directory:` line, or other |
| Sources.SourcesFollowRecords | check.py:175-205 | `_sources` raises exactly when some record has a file-list line with fewer than three fields, or has a directory and a size that is not an integer; otherwise it emits, in order, every file listed after a `Checksums-Sha256:` header of every record with a `Directory:`, joined to the record's last directory |
| Store.EmptyValid | check.py:75-106 | the database of a first run, with its four tables just created empty and the id counter at 0, satisfies the invariant that reading an index keeps |
| Store.Lookup | check.py:261-267 | the row found has the file name asked for; when none is found, no row has that name |
| Store.DeleteCatalog | check.py:277 | exactly the rows of other ids are kept |
| Store.DeletePackages | check.py:278 | exactly the package rows of other catalogs are kept |
| Catalog.UnwantedIff | check.py:207-226 | a file is ignored exactly when its name contains one of the nine architecture fragments |
| Catalog.SplitExt | check.py:236 | `splitext` cuts the name into a stem and an extension that put back together give the name. The extension is a dot followed by no dot and no `/`. It is non-empty exactly when the last component holds a dot preceded in that component by a character other than a dot |
| Catalog.GrammarOfNames | check.py:236-250 | a file is read as a binary list exactly when its base name is `Packages` or `Packages.gz`, as a source list exactly when it is `Sources` or `Sources.gz`, and every other file is skipped |
| Catalog.Read | check.py:250-297 | the parser chosen for the grammar returns a count equal to the number of entries it emits |
| Catalog.Parse | check.py:250-257 | an ignored file (no parser, empty, or an unwanted architecture) leaves the database and the active catalogs unchanged |
| Catalog.Apply | check.py:261-306 | the read succeeds with exactly one more active catalog, appended to the old list; it fails exactly when the row is not up to date and the parser raises |
| Catalog.ApplyHit | check.py:269-273 | a row with the same time and size that was read in full leaves the database untouched, and its id becomes active |
| Catalog.ApplyMiss | check.py:275-306 | otherwise the stale row and all its packages are gone. A new row under an id never used before is found for the file, read in full with the parser's count, and the id counter moves to it. Its packages are exactly the parser's entries, in order, after every kept package. Every other catalog row and every package of a kept catalog stay, the `pool` and `pool_scanned` tables are untouched, and the new id becomes active |
| Catalog.ApplyValid | check.py:261-306 | reading an index keeps the database invariant: ids are distinct and positive, one row per file, and every package belongs to a catalog |
| Catalog.ApplyTwice | check.py:261-306 | reading the same unchanged index again is a cache hit: the database stays as the first reading left it and the same id becomes active again |
| Catalog.ParseFails | check.py:228-306 | `parse` raises exactly when the file is not ignored, its row is not up to date, and the grammar's parser raises |
| Catalog.ParseValid | check.py:228-306 | `parse` keeps the database invariant, and a file it does not ignore adds exactly one active catalog |
| Catalog.ParseTwice | check.py:228-306 | `parse` is idempotent on the database: reading an unchanged file again succeeds and changes nothing |
| Catalog.SetDistsDb | check.py:311-317 | the active catalogs are exactly the catalog ids of the database, each once |
| Pool.SetPoolMarker | check.py:348-363 | the returned time is recorded for the pool and no other pool's entry changes. A recorded non-zero time is kept as is; an absent or zero one is replaced by the current time |
| Pool.MarkerRoundTrip | check.py:336-363 | after `set_pool_marker`, `get_pool_marker` returns the time it returned, whatever the clock says |
| Pool.SetPoolMarkerTwice | check.py:348-363 | once set to a non-zero time, setting the marker again changes nothing |
| Pool.LastScan | check.py:384-386 | a scan time is found exactly when some `pool_scanned` row names the pool |
| Pool.CanLoad | check.py:375-390 | the cache is loaded exactly when the `pool` table is not empty and the pool's last `pool_scanned` time is no older than its marker |
| Pool.FilesOf | check.py:395-399 | the listing holds exactly the files of the rows, each with the size of its last row, as the dict assignment leaves it when a later row overrides an earlier one |
| Pool.SetPool | check.py:365-430 | without `scandir` nothing is read or written. A fresh cache is loaded: nothing is written and the cached files are listed. Otherwise `pool` is replaced by exactly the files found. The marker file becomes what `set_pool_marker` leaves, other pools' entries included, and one `pool_scanned` row carries the pool's marker. The catalogs are kept. The listing is read from the files found: exactly those files, each at a size found for it |
| Pool.RescanThenLoad | check.py:375-430 | right after a scan that found files, the next `set_pool` on the same pool loads the cache, whatever the clock says |
| Reconcile.FindMissing | check.py:437-497 | it raises `AssertionError` exactly when no pool root is set. Otherwise the URLs are sorted without duplicates. They are exactly the files an active catalog lists that are absent or whose size differs from the listed one (a missing size never matches). The catalogs reported are exactly those listing an absent file. The count returned is the number of URLs |
| Reconcile.ExcessMembers | check.py:516-518 | the rows kept are exactly the pool rows whose file no package row names |
| Reconcile.FindExcess | check.py:499-533 | without a pool listing the count is 0. Otherwise it counts and writes out the excess rows, in table order, and adds up their sizes |
| Reconcile.MissingNotExcess | check.py:437-518 | no path is both to fetch and in excess |
| Text.SplitJoin | check.py:195 | `split(" ")` undoes joining fields with single spaces when no field contains a space |
| Text.PyIntShowInt | check.py:158 | `int()` reads back any integer written in decimal, with surrounding whitespace |
| Jobs.UrlPath | check.py:556 | `urlsplit(...).path` never holds a query or a fragment |
| Jobs.UrlPathOfPlain | check.py:556 | for `scheme://host/path` with no query or fragment, the path is `/path` |
| Jobs.CutDirsCountsDirectories | check.py:556-562 | the cut is one less than the number of `/`-separated parts of the mirror's path, after one trailing `/` is dropped |
| Jobs.CutDirsOfDebianMirror | check.py:556-562 | the mirror `http://deb.debian.org/debian/` is accepted with a cut of 1 |
| Jobs.Partition | check.py:564-601 | the job files, read one after the other, give the lines in order; every file but the last holds `n` lines and the last holds 1 to `n`; there is no file when there are no lines |
| Jobs.FileIsSlice | check.py:564-601 | job file `k` holds the consecutive lines from position `k * n` |
| Jobs.FileCount | check.py:564-601 | there are no files exactly when there are no lines. Otherwise the count `m` is the least with `m * n` at least the number of lines, and the last file holds the rest |
| Jobs.AtMostJobs | check.py:539-564 | with `n = ceil(nb / jobs)` lines per file, no more than `jobs` files are written |
| Jobs.Wget | check.py:535-601 | it raises `AssertionError` exactly when `jobs` is outside 1 to 20. Otherwise `wget` returns before partitioning (the result is `None`) exactly when the mirror's path, less one trailing `/`, ends in `/pool`. Otherwise the cut is the number of `/` in that path and the job files hold the URLs joined to the mirror, in order, `ceil(nb / jobs)` per file except the last, with no file when there are no URLs. There are at most `jobs` files, and as few as hold all the lines |
| Jobs.TwentyFiveOverFour | check.py:564-601 | 25 URLs over 4 jobs give files of 7, 7, 7 and 4 lines |
| Jobs.FiveOverFour | check.py:564-601 | 5 URLs over 4 jobs give only three files, of 2, 2 and 1 lines |
| StringOrder.InsertSorted | check.py:488 | inserting into a strictly sorted list keeps it strictly sorted and adds exactly the new string |
| StringOrder.SortedUnique | check.py:488 | two strictly sorted lists with the same strings are equal, so the URL list is determined by its set of paths |

## Left out

- The command line, the main loop, `debug` and `print` output, and the
  walk over the `dists` tree. Only the per-file decision of `parse` is
  modelled.
- Opening index files: gzip and codec reading, `peek` and `stat`. An
  index is given as its lines, modification time and size. An empty file
  has no lines.
- UTF-8 decoding of index lines. Lines are given as strings.
- The SQL text, cursors and commits. A table is a sequence of rows in table
  order. `select distinct` and the unordered sub-select of `find_excess`
  are taken to return rows in table order.
- The rollback on an exception inside `parse`. A failed parse is a
  `Failure` and the run stops, so the database after a failure is not
  modelled.
- The pool scan over the file system (`scandir`, `relpath`, `stat`). The
  files found are given as a sequence of rows.
- The batching of pool inserts by 100. It does not change the rows
  written.
- Marker file I/O and JSON. The marker file is a map.
- Floating-point times. Times are integers.
- The `wget_cmd.sh` file: its text, and that `wget` truncates it and
  writes its header before the `/pool` test, so it is rewritten even when
  no job file follows.
- The `url.K` and `log.K` file names and the `missing` and `excess`
  files. The model keeps what they contain: the cut, the job files'
  lines, the sorted URLs and the excess paths.
- `total()`, which only reports.
- The text of `clean.sh`, a generated script that deletes the excess
  files listed in `excess` under the pool. The model keeps the excess
  paths it lists.
- Jobs.UrlPath: models the scheme, network-location, query and fragment
  split of `urlsplit`. It leaves out the removal of control characters,
  the bracket checks on IPv6 hosts, and the check that raises `ValueError`
  for a non-ASCII network location whose NFKC form holds `/`, `?`, `#`,
  `@` or `:` (as `http://a\u2100b/debian/` does).
- Text.PyInt: accepts ASCII digits with single underscores, a sign and
  surrounding whitespace. It leaves out the other Unicode digits `int()`
  accepts. It also leaves out the limit of CPython 3.11 and later, where
  `int()` rejects a string of more than 4300 digits.
- Catalog.Apply: takes every size to fit SQLite's signed 64-bit
  `INTEGER`, from -2^63 to 2^63-1. The inserter's `execute` raises
  `OverflowError` on a `Size:` value or a `Sources` file size outside that
  range, and the model's read succeeds there.
- Catalog.ParseFails: likewise takes sizes to fit in 64 bits, so it does
  not count the `OverflowError` of the inserter among the ways `parse`
  raises.
- Text.Lower: folds ASCII letters only, which covers the ASCII field
  names matched.
- Pool.SetPool: takes one `now` for the whole call. The source calls
  `get_pool_marker` once for each `pool_scanned` row of the pool, and each
  call reads the clock. It makes no call when the `pool` table is empty.
  `set_pool_marker` reads the clock again. Only the last row's comparison
  decides the load.
- Jobs.Wget: states the number of job files through the inequality
  defining `ceil(nb / n)` rather than as a division. It does not raise the
  `ValueError` of `urlsplit` for a network location whose NFKC form holds
  `/`, `?`, `#`, `@` or `:`, so for such a mirror it succeeds where
  `wget` raises.
