# A verified model of the lab2 image-dataset pipeline

This project models, in Dafny, the image-dataset pipeline of the
application-programming labs. The pipeline:

- reads date windows and a per-window cap from the command line (`parse_range`, `check_range`);
- crawls one directory `range_<i>` per window (`download_images`, `crawl_range`);
- collects every image below the output directory as an `[absolute, relative]` pair (`create_pairs`);
- writes those pairs to a `;`-separated manifest (`write_csv`);
- iterates the manifest, or the directory, with `PathIterator`;
- classifies the images of such a manifest by orientation, filters them and sorts them (lab4).

Two near-identical copies of the pipeline exist. `lab2/main.py` knows `.webp` and numbers
its directories from `range_0`. `lab2/crawler.py`, which the root `main.py` imports, drops
`.webp` and numbers from `range_1`. Both are one model, `Pipeline.Variant`, with the
constants `Pipeline.Lab2Main` and `Pipeline.CrawlerModule`.

Modules, in dependency order:

- `Wrappers`: `Option`, `Result` and the exceptions, one constructor per exception raised.
- `Text`: `str(n)`, ASCII `lower`, `strip`, and `split`/`join` on one character.
- `Dates`: the calendar of `datetime.date`, the `strptime("%Y-%m-%d")` grammar, `parse_range`, `check_range`.
- `Paths`: paths as lists of components, `PurePath.suffix`, `relative_to` and the text of a path.
- `Files`: the filesystem as a sequence of entries in traversal order, with `rglob`, `open(...,"w")` and `mkdir(parents=True, exist_ok=True)`.
- `Scanner`: `EXTENSIONS`, the asset test and the scanning loop of `create_pairs` and `PathIterator`.
- `Manifest`: `write_csv`, the text `csv.writer` produces, what `csv.reader` reads back, and the reading loop with its `first` flag.
- `Cursor`: `PathIterator` as a class. `items` is fixed at construction; `index` is `_index`.
- `Pipeline`: `crawl_range`, `download_images`, argument parsing and `main`.
- `Orientation`: `add_orientation_column`, `filter_by_orientation` and `sort_by`, over a data frame of rows.

The crawler and the image decoder are not modelled as code; both are parameters.

- A `Pipeline.Crawler` maps each crawl call to the files it fetched, or to the exception it raised.
- An `Orientation.Dims` maps a path text to the height and width of the image, or to `None` when the file does not open.

Each loop of the source is a `method` with a `while` loop. It is proved equal to a recursive
specification function, and the properties are lemmas about that function:

| loop | method | specification |
|---|---|---|
| the scanning loop | `Scanner.ScanPairs` | `Scanner.Scan` |
| the writing loop of `write_csv` | `Manifest.WriteCsv` | `Manifest.EncodeRecords` and `Manifest.FirstBadRow` |
| the reading loop | `Manifest.LoadRows` | `Manifest.ReadItems` |
| the window loop of `download_images` | `Pipeline.DownloadImages` | `Pipeline.DownloadSpec` |
| `main` | `Pipeline.Run` | `Pipeline.RunSpec` |
| the classification loop | `Orientation.AddOrientationColumn` | `Orientation.Orientations` |

## Model

| member | source | states |
|---|---|---|
| Text.NatToString | lab2/main.py:157 | `str(n)` is a non-empty run of digits without a leading zero |
| Text.NatToStringRoundTrip | lab2/main.py:157 | reading the digits of `str(n)` gives back `n` |
| Text.NatToStringInjective | lab2/crawler.py:112 | two numbers print alike exactly when they are equal |
| Text.Lower | lab2/main.py:119-120 | defines ASCII `str.lower`; its meaning is stated by `Text.LowerSpec`, `Text.LowerIdempotent` and `Text.LowerAppend` |
| Text.LowerSpec | lab2/main.py:119 | after `lower()` no capital is left, every other character is unchanged in place, and each capital becomes its small letter |
| Text.LowerIdempotent | lab2/main.py:119 | lower-casing twice is lower-casing once |
| Text.LowerAppend | lab2/main.py:119 | lower-casing a concatenation concatenates the lower-cased parts |
| Text.StripLeft | lab2/main.py:119 | the result is a suffix of the input, removes only whitespace, and starts with a non-space |
| Text.StripRight | lab2/main.py:120 | the result is a prefix of the input, removes only whitespace, and ends with a non-space |
| Text.Strip | lab2/main.py:119-120 | defines `str.strip` as `StripRight` of `StripLeft`; its meaning is stated by `Text.StripLeft`, `Text.StripRight` and `Manifest.StripUnpadded` |
| Text.Split | lab2/main.py:14 | `split(sep)` gives at least one part, and no part holds the separator |
| Text.SplitThenJoin | lab2/main.py:14 | joining the parts of a split gives back the string |
| Text.JoinThenSplit | lab2/main.py:14 | splitting the join of separator-free parts gives back the parts |
| Text.SplitCount | lab2/main.py:14 | the number of parts is one more than the number of separators, so `a, b = s.split(":")` unpacks exactly when there is one colon |
| Dates.DaysInMonth | lab2/main.py:15-16 | a month has 28 to 31 days, and 29 exactly for February of a leap year |
| Dates.ParseDate | lab2/main.py:15-16 | a parsed date is a valid calendar date, read from text with exactly two dashes |
| Dates.ParseFormattedDate | lab2/main.py:15-16 | parsing the ISO text of a valid date gives the date back |
| Dates.ParseRange | lab2/main.py:12-19 | malformed exactly when the colon count is not one; `InvalidDate` exactly when there is one colon and a half does not parse; on success both dates are valid, start <= end, and the window is the two parsed dates in order, or swapped exactly when the first is later |
| Dates.ParseRangeOfParts | main.py:11-18 | two parsed halves give the window normalised to start <= end |
| Dates.ParseFormattedRange | main.py:11-18 | `A:B` and `B:A` written from two valid dates both parse to the same window |
| Dates.Normalize | lab2/main.py:17-18 | defines the swap that puts the earlier date first; its meaning is stated by `Dates.ParseRange`, `Dates.ParseRangeOfParts` and `Dates.NormalizeSymmetric` |
| Dates.NormalizeSymmetric | lab2/main.py:17-18 | the swap makes the window independent of the order of the two dates |
| Dates.NoColonInDate | lab2/main.py:14 | a formatted date holds no colon, so it cannot break the split |
| Dates.CheckRange | lab2/main.py:53-56 | no error exactly when 50 <= cap <= 1000, otherwise the cap `ValueError` |
| Paths.RFind | lab2/main.py:76 | the index of the last occurrence of the character, or -1 when there is none |
| Paths.Suffix | lab2/main.py:76 | the suffix is empty or a dotted tail of the name with no other dot; names without a dot and names ending in a dot have none |
| Paths.SuffixOfStemAndExtension | lab2/main.py:76 | a non-empty stem followed by a dotted extension has exactly that extension as its suffix |
| Paths.SuffixIgnoresCase | lab2/main.py:76 | names equal up to case have suffixes equal up to case |
| Paths.RelativeTo | lab2/main.py:78 | succeeds exactly when the base is a component prefix of the path, and the base followed by the result is the path |
| Paths.AbsTextUnder | lab2/main.py:77-79 | the text of a path below the base is the base's text, a slash and the relative text |
| Files.IndexOf | lab2/main.py:110 | the first position holding the path, or -1 exactly when no entry holds it |
| Files.UniquePathsIff | lab2/main.py:75 | a well-formed filesystem is one where no two entries share a path |
| Files.UniqueIndexOf | lab2/main.py:110 | in a well-formed filesystem the lookup of an entry's path finds that entry |
| Files.RGlob | lab2/main.py:75 | `rglob("*")` yields exactly the entries strictly below the directory |
| Files.WriteFile | lab2/main.py:86 | fails exactly on a directory; otherwise the path holds the text and no other path changes |
| Files.WriteFileKeepsUnique | lab2/main.py:86 | writing a file keeps one entry per path |
| Files.MkDirs | lab2/main.py:66 | no existing entry changes |
| Files.MkDirsAppendsDirs | lab2/main.py:85 | `mkdir` only appends entries, and only directories |
| Files.MkDirsGrows | lab2/main.py:66 | the directory exists afterwards, and so does everything made for its parent |
| Files.MkDirsMakesAncestors | lab2/crawler.py:18 | the directory and each of its ancestors exist afterwards |
| Files.MkDirsIgnoresDeeper | lab2/main.py:85 | `mkdir` of a directory leaves every longer path looked up as before |
| Files.MkDirsKeepsUnique | lab2/main.py:66 | making directories keeps one entry per path |
| Scanner.IsAsset | lab2/main.py:76 | defines the asset test, a file whose lower-cased suffix is in `EXTENSIONS` (also lab2/crawler.py:31); its meaning is stated by `Scanner.AssetByExtension`, `Scanner.IsAssetIgnoresCase` and `Pipeline.WebpOnlyInLab2Main` |
| Scanner.IsAssetIgnoresCase | lab2/main.py:76 | whether a file is an asset does not depend on the case of its name |
| Scanner.AssetByExtension | lab2/main.py:9 | a file `stem + ext` whose lower-cased extension is in the set is an asset |
| Scanner.Assets | lab2/main.py:75-76 | the reference list holds exactly the assets of the listing |
| Scanner.ScanErrorSticks | lab2/main.py:78 | once `relative_to` has raised, later entries change nothing |
| Scanner.ScanSucceedsIff | lab2/main.py:127-134 | the scan succeeds exactly when every asset lies below the base, and otherwise fails with the `relative_to` error |
| Scanner.ScanListsAssets | lab2/main.py:71-80 | one pair per asset in traversal order; each pair is the asset's text and its text relative to the base |
| Scanner.ScanPairsUnderBase | lab2/main.py:74-79 | every absolute path is the base's text, a slash and the pair's relative path |
| Scanner.ScanBelowBaseSucceeds | lab2/main.py:74-78 | scanning entries that all lie below the base never fails |
| Scanner.ScanPairs | lab2/main.py:130-134 | the scanning loop returns exactly `Scan` of the listing |
| Scanner.CreatePairs | lab2/crawler.py:26-35 | `create_pairs` returns the scan of `rglob(root)` relative to the root, and never fails |
| Manifest.EncodeField | lab2/main.py:87 | the writer emits a clean field unchanged |
| Manifest.LineEnd | lab2/main.py:111-112 | the first line ends at the first line break, or at the end of the text |
| Manifest.Lines | lab2/main.py:111-112 | no line holds a line break |
| Manifest.DecodeRecord | lab2/main.py:101 | a written record of clean fields reads back as its two fields |
| Manifest.DecodeEncodedRecords | lab2/main.py:112 | reading back the text of clean records gives each record's two fields, in order |
| Manifest.FirstBadRow | lab2/main.py:90-98 | every row before the position is writable, and the row at it is not |
| Manifest.FirstTwo | lab2/main.py:99-101 | each row contributes its first two fields, in order |
| Manifest.WriteCsv | lab2/main.py:83-101 | the file holds the header and the first two fields of every row before the first refused row; that row raises `TypeError` if it is not iterable and `ValueError` if it is short |
| Manifest.EncodeRecordsAppend | lab2/main.py:101 | one more `writerow` appends exactly its record |
| Manifest.LoadRows | lab2/main.py:110-126 | the reading loop with its `first` flag returns exactly `ReadItems` of the rows |
| Manifest.ReadItemsStep | lab2/main.py:124-126 | after the first row, each row with at least two fields adds its first two, and shorter rows add nothing |
| Manifest.LaterHeaderIsData | lab2/crawler.py:68-81 | a row that looks like the header is kept as data anywhere but first |
| Manifest.HeaderIsHeader | lab2/main.py:115-121 | the labels `write_csv` writes pass the header test |
| Manifest.HeaderSkipped | lab2/main.py:115-123 | the written header row is skipped when read back |
| Manifest.RecordsOfPairs | lab2/main.py:125-126 | reading the two-field rows of pairs gives the pairs |
| Manifest.ManifestRoundTrip | lab2/main.py:110-126 | reading back what `write_csv` wrote for clean pairs gives those pairs, in order |
| Manifest.WriteThenRead | lab2/main.py:83-101 | `write_csv` accepts rows that all have two clean fields, and reading back gives the first two fields of every row |
| Cursor.IsManifestFile | lab2/main.py:110 | defines the manifest branch test, a file with a `.csv` suffix in any case; its meaning is stated by `Cursor.OpenFailsIff` and `Pipeline.NonCsvManifestIsRejected` |
| Cursor.OpenItems | lab2/main.py:107-138 | defines the dispatch of `__init__`: manifest, directory or the `ValueError`; its meaning is stated by `Cursor.OpenFailsIff`, `Cursor.OpenDirectoryUnderBase` and `Cursor.OpenWrittenManifest` |
| Cursor.OpenFailsIff | lab2/crawler.py:64-93 | construction fails exactly when the source is neither a manifest nor a directory (`ValueError` about the source), or when it is a directory with an asset outside the base (`relative_to`) |
| Cursor.OpenDirectoryUnderBase | lab2/crawler.py:82-89 | a directory scanned relative to an ancestor of itself never fails and lists the scan's pairs |
| Cursor.OpenWrittenManifest | lab2/crawler.py:65-81 | iterating a manifest written for clean pairs gives exactly those pairs |
| Cursor.PathIterator.constructor | lab2/main.py:139 | the iterator holds the collected items, with the index at 0 |
| Cursor.PathIterator.Iter | lab2/main.py:141-143 | `__iter__` resets the index to 0 |
| Cursor.PathIterator.Next | lab2/main.py:145-150 | on an iterator whose index has not run past the items, returns the item under the index and advances; once the items are used up, StopIteration with nothing changed; the index stays within the items |
| Cursor.PathIterator.NextWrapping | lab5/main_window.py:89-93 | on StopIteration, rewinds and asks again, so items repeat cyclically; with no items the second StopIteration escapes |
| Cursor.PathIterator.Drain | lab2/main.py:170-171 | `for el in iterator` yields every item once, in order, and ends with the index at the end |
| Cursor.Open | lab2/crawler.py:62-94 | the constructor fails exactly as `OpenItems` does; otherwise it returns a fresh iterator over `OpenItems` at index 0 |
| Pipeline.Take | lab2/main.py:68 | the crawler keeps a prefix of what it fetched, no longer than `max_num` |
| Pipeline.StoreFiles | lab2/main.py:67-68 | storing files changes nothing outside the window's directory |
| Pipeline.StoreFilesKeepsUnique | lab2/main.py:67-68 | storing files keeps one entry per path |
| Pipeline.CrawlRange | lab2/main.py:59-68 | nothing existing outside the directory changes; the call fails exactly when the crawler raises, with its exception |
| Pipeline.CrawlRangeKeepsUnique | lab2/main.py:59-68 | one `crawl_range` call keeps one entry per path |
| Pipeline.SubdirName | lab2/main.py:157 | defines `range_{idx}`, or `range_{idx+1}` in lab2/crawler.py:112; its meaning is stated by `Pipeline.SubdirNamesDistinct` and `Pipeline.Calls` |
| Pipeline.SubdirNamesDistinct | lab2/crawler.py:112 | two windows share a directory name exactly when they are the same window |
| Pipeline.FirstFailure | lab2/main.py:156-158 | the loop stops at the first window whose crawl raises; every window before it was fetched |
| Pipeline.FirstFailureSticks | lab2/main.py:156-158 | a failing window stops the loop, however many windows follow |
| Pipeline.Calls | lab2/main.py:156-158 | the crawl calls in window order, one per window: directory `range_<first+i>`, the window's dates and the cap as `max_num` |
| Pipeline.CrawlFs | lab2/main.py:156-158 | the crawl loop keeps one entry per path |
| Pipeline.CrawlStepStaysInOutDir | lab2/main.py:157-158 | one window's crawl changes nothing existing outside `out_dir` |
| Pipeline.CrawlStaysInOutDir | lab2/main.py:155-158 | the crawl loop changes nothing existing outside `out_dir` |
| Pipeline.RowsOfPairs | lab2/main.py:159-160 | `write_csv` accepts every row `create_pairs` makes and writes its pairs |
| Pipeline.Parent | lab2/main.py:85 | defines `csv_path.parent`; its meaning is stated by `Pipeline.WriteManifest` and `Files.MkDirsIgnoresDeeper` |
| Pipeline.WriteManifest | lab2/main.py:85-86 | the write fails exactly when the path is the root or is a directory once the parents are made; every failure is the `OSError` of opening a directory, and on success the path holds the text |
| Pipeline.WriteManifestKeepsUnique | lab2/main.py:85-86 | writing the manifest keeps one entry per path |
| Pipeline.WriteManifestKeeps | lab2/main.py:85-86 | writing the manifest changes no other path that already existed |
| Pipeline.DownloadImages | lab2/main.py:153-160 | the window loop, the scan and the manifest write produce exactly `DownloadSpec` |
| Pipeline.DownloadCompletes | lab2/main.py:159-160 | once every window is crawled, the outcome is the manifest write of the scanned pairs |
| Pipeline.DownloadFailsAt | lab2/main.py:156-158 | a crawl that raises ends the download with that exception, before any manifest is written |
| Pipeline.DownloadCallsInOrder | lab2/crawler.py:108-115 | one crawl per window, in order, each with its own directory and the cap; every call but the last was fetched; a stop before the last window comes with an exception |
| Pipeline.DownloadStaysInOutDir | lab2/main.py:153-160 | apart from the manifest, the download changes nothing existing outside `out_dir` |
| Pipeline.DownloadSucceedsIff | lab2/main.py:153-160 | the download raises nothing exactly when every crawl fetched and the manifest path, after the crawl, is neither the root nor a directory |
| Pipeline.DownloadOverwritesManifest | lab2/main.py:159-160 | an existing manifest file outside `out_dir` is overwritten once every crawl has fetched |
| Pipeline.DownloadKeepsUnique | lab2/main.py:153-160 | a download keeps one entry per path, whether it stops at a failed crawl or writes the manifest |
| Pipeline.DownloadWritesManifest | lab2/crawler.py:108-115 | after a download without exceptions, every window was crawled and the manifest holds the header and the scanned pairs |
| Pipeline.ParseRanges | lab2/main.py:36-43 | the `--range` values convert exactly when each one does, into the windows in order |
| Pipeline.RunParsed | main.py:58-69 | every exception after argparse is caught, so the status is 0 and nothing more is printed after it |
| Pipeline.Run | lab2/main.py:163-175 | `main` produces exactly `RunSpec` |
| Pipeline.RunStatus | main.py:58-69 | the status is 2 exactly when argparse refuses the command line, and 0 otherwise; after an exception nothing is printed |
| Pipeline.CapCheckedBeforeCrawl | main.py:61-62 | a cap outside [50, 1000] is reported before any crawl, and the filesystem is untouched |
| Pipeline.CleanRunPrintsManifest | main.py:63-66 | a clean run prints exactly the pairs written to the manifest, in order |
| Pipeline.NonCsvManifestIsRejected | lab2/main.py:168-169 | a manifest path without a `.csv` suffix exists afterwards but is no manifest, so iteration raises the `ValueError` about the source |
| Pipeline.WebpOnlyInLab2Main | lab2/crawler.py:9 | a `.webp` file is an asset for lab2/main.py and not for lab2/crawler.py |
| Pipeline.JpgInBoth | lab2/main.py:9 | a `.jpg` file is an asset for both copies |
| Orientation.Classify | lab4/processing.py:33-38 | defines the three-way classification; its meaning is stated by `Orientation.ClassifyIff` |
| Orientation.ClassifyIff | lab4/processing.py:33-38 | Vertical exactly when h > w, Horizontal exactly when h < w, Square exactly when h == w |
| Orientation.NameInjective | lab4/processing.py:8 | different orientations have different texts |
| Orientation.Orientations | lab4/processing.py:19-39 | the new column has one entry per row |
| Orientation.OrientationsPerRow | lab4/processing.py:19-30 | a row's entry is missing exactly when its file did not open, and is otherwise the text of its classification |
| Orientation.WithColumn | lab4/processing.py:40 | defines `df_new[new_col] = values` on the copy made at lab4/processing.py:16; its meaning is stated by `Orientation.WithColumnKeepsRest` |
| Orientation.WithColumnKeepsRest | lab4/processing.py:40 | the copy has the same rows in order, each with the new entry; every other cell and the old columns' order are kept |
| Orientation.AddOrientationColumn | lab4/processing.py:10-41 | `KeyError` without the path column; otherwise a copy with the classification column attached |
| Orientation.KeepMatching | lab4/processing.py:47 | the filter never lengthens the rows |
| Orientation.KeepMatchingExactly | lab4/processing.py:47 | each matching row is kept as often as it occurs, and no other row is kept |
| Orientation.KeepMatchingMembers | lab4/processing.py:47 | a row is kept exactly when it is in the input and matches |
| Orientation.KeepMatchingAppend | lab4/processing.py:47 | filtering a concatenation concatenates the filtered parts, so relative order is kept |
| Orientation.KeepMatchingIdempotent | lab4/processing.py:47 | filtering the result again changes nothing |
| Orientation.FilterByOrientation | lab4/processing.py:43-47 | defines the filter; its meaning is stated by `Orientation.FilterByOrientationSpec`, `Orientation.KeepMatchingAppend` and `Orientation.FilterAfterClassify` |
| Orientation.FilterByOrientationSpec | lab4/processing.py:43-47 | `KeyError` exactly without the column; otherwise the same columns, a well-formed frame, and exactly the matching rows with their multiplicities |
| Orientation.FilterAfterClassify | lab4/processing.py:31-47 | after classifying, a row matches an orientation exactly when its file opened with that orientation |
| Orientation.TextLeTotal | lab4/processing.py:51 | Python's string order is total |
| Orientation.TextLeTransitive | lab4/processing.py:51 | Python's string order is transitive |
| Orientation.CellLeTotal | lab4/processing.py:51 | the order of `sort_values`, missing values last, is total |
| Orientation.CellLeTransitive | lab4/processing.py:51 | the order of `sort_values` is transitive |
| Orientation.OrientationOrder | lab4/processing.py:51 | the orientations sort as Horizontal, Square, Vertical, and before missing values |
| Orientation.Insert | lab4/processing.py:51 | insertion adds exactly the one row |
| Orientation.InsertSorted | lab4/processing.py:51 | inserting into sorted rows keeps them sorted |
| Orientation.SortRows | lab4/processing.py:51 | the sorted rows are a permutation of the input |
| Orientation.SortRowsSorted | lab4/processing.py:51 | the sorted rows are non-decreasing under the column |
| Orientation.SortBy | lab4/processing.py:49-51 | defines `sort_values(by=col)`; its meaning is stated by `Orientation.SortBySpec` |
| Orientation.SortBySpec | lab4/processing.py:49-51 | `KeyError` exactly without the column; otherwise the same columns and a permutation of the rows, non-decreasing under the column |

## Left out

- The network crawl (`GoogleImageCrawler`, its session headers, lab2/crawler.py:20-23) is a parameter, `Pipeline.Crawler`. It gives the files fetched for a call, or the exception raised. The store writes the files into the window's directory; a name already taken by a directory is skipped.
- `resolve()`, symlinks and the working directory: paths are already-resolved lists of components, so `Path.resolve()` is the identity.
- Traversal order: only the order of the initial filesystem is an input, a sequence of entries in the order `rglob` yields them. Every directory, crawled file and manifest the run creates is appended after all existing entries. A real traversal may list them elsewhere, for example a new file before an older sibling directory. That order reaches the manifest through the scan.
- Well-formedness: the lemmas that read a filesystem do not require one entry per path. `Lookup` takes the first entry for a path. `Pipeline.DownloadKeepsUnique` shows that a well-formed filesystem stays well-formed.
- `mkdir` never fails in the model. A directory to be made, or an ancestor of it, that exists as a file is left as it is. Python raises `FileExistsError` for the directory itself and `NotADirectoryError` for an ancestor; `main` catches and prints both.
- Files.MkDirs: states only that nothing existing changes; what it creates is stated by the lemmas beside it.
- Manifest.ManifestRoundTrip: holds for fields with no `;`, `"` or line break. The reader model splits on `;` and does not undo the writer's quoting.
- Manifest.DecodeRows: does not model quoted fields, `skipinitialspace` or any other dialect option; it splits lines on `\r\n`, `\r` and `\n` and fields on `;`.
- `str.lower` and `str.strip` are ASCII-only: Unicode case mapping and Unicode whitespace beyond the ASCII and `\x1c`-`\x1f` separators are not modelled.
- `strptime`: `%Y` takes exactly four digits and `%m`/`%d` one or two. Space-padded numbers, the locale and non-ASCII decimal digits, which `\d` accepts, are not modelled.
- argparse: the other options are taken as already converted. Neither `--help` nor the usage text is modelled. A missing `--range` or a value `parse_range` refuses gives status 2.
- The printed text: `print(el)` of a list and `print(e)` of an exception are modelled as the list of printed pairs and the error value.
- Cursor.BaseOf: a `root` of `None` and a `root` of `""` are both `None`, because Python treats an empty string as false there.
- A `csv_path` that is the root `/` is modelled as an `IsADirectory` failure of the write.
- The message that `add_orientation_column` prints for a file that does not open (lab4/processing.py:27) is left out, because printing is not modelled.
- PIL decoding and the RGB conversion are the oracle `Orientation.Dims`, from the path text to `Some((h, w))` or `None`.
- pandas:
  - A data frame is its columns and a sequence of rows, each a map from column name to a cell (a text or a missing value).
  - Index labels and duplicate column names are not modelled.
  - A path cell that is missing is read as the text `nan`, as `str(p)` prints it.
- Orientation.SortBySpec: promises a permutation ordered under the column, not pandas' order among equal cells. The model sorts by insertion; `sort_values` uses an unstable quicksort by default.
- lab3 (image overlay and plotting), lab4/visualization.py, lab4/main.py and the lab5 user interface are not part of this model. The lab5 wrap-around idiom is `Cursor.PathIterator.NextWrapping`.
