/** The orchestration: `download_images` and `main` of lab2/main.py, and the
    same pair in lab2/crawler.py and main.py.  The two copies differ only in
    the extension set and in the number of the first `range_<i>` directory. */
module Pipeline {
  import opened Wrappers
  import opened Text
  import opened Dates
  import opened Paths
  import opened Files
  import opened Scanner
  import opened Manifest
  import opened Cursor

  /** The constants a copy of the pipeline is built with. */
  datatype Variant = Variant(extensions: set<string>, firstRangeIndex: nat)

  /** lab2/main.py: `.webp` is an asset, directories start at `range_0`. */
  const Lab2Main: Variant := Variant({".jpg", ".jpeg", ".png", ".webp"}, 0)

  /** lab2/crawler.py, which main.py runs: no `.webp`, directories start at `range_1`. */
  const CrawlerModule: Variant := Variant({".jpg", ".jpeg", ".png"}, 1)

  // ---------------------------------------------------------------------------
  // The crawler, as an oracle
  // ---------------------------------------------------------------------------

  /** One `crawl_range(keyword, out_dir, date_range, max_num)` call. */
  datatype CrawlCall = CrawlCall(keyword: string, dir: Path, window: DateWindow, maxNum: int)

  /** A file the crawler stores under its directory. */
  datatype Download = Download(name: string, content: string)

  /** What the crawler does on a call: the files it fetched, in the order it
      stores them, or the exception it raised. */
  datatype Fetch = Fetched(files: seq<Download>) | Failed(reason: string)

  /** The image search behind `GoogleImageCrawler.crawl`. */
  type Crawler = CrawlCall -> Fetch

  /** The crawler keeps at most `max_num` of what it fetched. */
  function Take(files: seq<Download>, n: int): (r: seq<Download>)
    ensures |r| <= |files| && (n >= 0 ==> |r| <= n)
    ensures r == files[..|r|]
  {
    if n <= 0 then [] else if |files| <= n then files else files[..n]
  }

  /** The store writes each file into the directory, in order; a name that is
      already taken by a directory is skipped. */
  function StoreFiles(fs: Fs, dir: Path, files: seq<Download>): (r: Fs)
    ensures forall q :: !StrictlyUnder(q, dir) ==> Lookup(r, q) == Lookup(fs, q)
  {
    if files == [] then fs
    else
      var before := StoreFiles(fs, dir, files[..|files| - 1]);
      var f := files[|files| - 1];
      assert StrictlyUnder(dir + [f.name], dir);
      match WriteFile(before, dir + [f.name], f.content)
      case Ok(after) => after
      case Err(_) => before
  }

  /** What a filesystem step leaves behind: the new filesystem and the
      exception it raised, if any (one `crawl_range` call, or the manifest
      write). */
  datatype Effect = Effect(fs: Fs, err: Option<Error>)

  /** `crawl_range`: create the directory, then let the crawler store at most
      `max_num` files in it. */
  function CrawlRange(fs: Fs, call: CrawlCall, crawl: Crawler): (r: Effect)
    ensures forall q :: Lookup(fs, q).Some? && !StrictlyUnder(q, call.dir) ==> Lookup(r.fs, q) == Lookup(fs, q)
    ensures r.err.None? <==> crawl(call).Fetched?
    ensures r.err.Some? ==> r.err == Some(FetchFailed(crawl(call).reason))
  {
    var made := MkDirs(fs, call.dir);
    match crawl(call)
    case Failed(reason) => Effect(made, Some(FetchFailed(reason)))
    case Fetched(files) => Effect(StoreFiles(made, call.dir, Take(files, call.maxNum)), None)
  }

  /** Storing the crawler's files keeps one entry per path. */
  lemma {:induction false} StoreFilesKeepsUnique(fs: Fs, dir: Path, files: seq<Download>)
    requires UniquePaths(fs)
    ensures UniquePaths(StoreFiles(fs, dir, files))
  {
    if files != [] {
      var before := StoreFiles(fs, dir, files[..|files| - 1]);
      var f := files[|files| - 1];
      StoreFilesKeepsUnique(fs, dir, files[..|files| - 1]);
      if WriteFile(before, dir + [f.name], f.content).Ok? {
        WriteFileKeepsUnique(before, dir + [f.name], f.content);
      }
    }
  }

  /** One `crawl_range` call keeps one entry per path. */
  lemma CrawlRangeKeepsUnique(fs: Fs, call: CrawlCall, crawl: Crawler)
    requires UniquePaths(fs)
    ensures UniquePaths(CrawlRange(fs, call, crawl).fs)
  {
    MkDirsKeepsUnique(fs, call.dir);
    if crawl(call).Fetched? {
      StoreFilesKeepsUnique(MkDirs(fs, call.dir), call.dir, Take(crawl(call).files, call.maxNum));
    }
  }

  // ---------------------------------------------------------------------------
  // `download_images`
  // ---------------------------------------------------------------------------

  /** The parsed arguments that `download_images` reads. */
  datatype Job = Job(keyword: string, outDir: Path, csv: Path, ranges: seq<DateWindow>, perRange: int)

  /** `f"range_{idx}"` or `f"range_{idx+1}"`. */
  function SubdirName(first: nat, i: nat): string {
    "range_" + NatToString(first + i)
  }

  /** The directories of different windows are different. */
  lemma SubdirNamesDistinct(first: nat, i: nat, j: nat)
    ensures SubdirName(first, i) == SubdirName(first, j) <==> i == j
  {
    var a, b := SubdirName(first, i), SubdirName(first, j);
    assert a[6..] == NatToString(first + i) && b[6..] == NatToString(first + j);
    NatToStringInjective(first + i, first + j);
  }

  /** The call `download_images` makes for window `i`. */
  function CallFor(job: Job, first: nat, i: nat): CrawlCall
    requires i < |job.ranges|
  {
    CrawlCall(job.keyword, job.outDir + [SubdirName(first, i)], job.ranges[i], job.perRange)
  }

  /** Where the crawling loop over the first `k` windows stops: the first
      window whose crawl raised, or `k` when none did. */
  function FirstFailure(job: Job, first: nat, k: nat, crawl: Crawler): (f: nat)
    requires k <= |job.ranges|
    ensures f <= k
    ensures forall i :: 0 <= i < f ==> crawl(CallFor(job, first, i)).Fetched?
    ensures f < k ==> crawl(CallFor(job, first, f)).Failed?
  {
    if k == 0 then 0
    else
      var f := FirstFailure(job, first, k - 1, crawl);
      if f < k - 1 then f
      else if crawl(CallFor(job, first, k - 1)).Failed? then k - 1
      else k
  }

  /** Any window that fails determines where the loop stops, however many
      windows follow it. */
  lemma {:induction false} FirstFailureSticks(job: Job, first: nat, i: nat, k: nat, crawl: Crawler)
    requires i < k <= |job.ranges|
    requires FirstFailure(job, first, i + 1, crawl) == i
    ensures FirstFailure(job, first, k, crawl) == i
  {
    if k > i + 1 {
      FirstFailureSticks(job, first, i, k - 1, crawl);
    }
  }

  /** The crawl calls for the first `n` windows, in window order. */
  function Calls(job: Job, first: nat, n: nat): (calls: seq<CrawlCall>)
    requires n <= |job.ranges|
    ensures |calls| == n
    ensures forall i :: 0 <= i < n ==> calls[i] == CallFor(job, first, i)
    ensures forall i :: 0 <= i < n ==>
      calls[i].keyword == job.keyword && calls[i].dir == job.outDir + ["range_" + NatToString(first + i)] &&
      calls[i].window == job.ranges[i] && calls[i].maxNum == job.perRange
  {
    seq(n, i requires 0 <= i < n => CallFor(job, first, i))
  }

  lemma CallsSnoc(job: Job, first: nat, n: nat)
    requires n < |job.ranges|
    ensures Calls(job, first, n + 1) == Calls(job, first, n) + [CallFor(job, first, n)]
  {
  }

  /** The filesystem after `crawl_range` has run for the first `k` windows. */
  function CrawlFs(fs: Fs, job: Job, first: nat, k: nat, crawl: Crawler): (r: Fs)
    requires k <= |job.ranges|
    ensures UniquePaths(fs) ==> UniquePaths(r)
  {
    if k == 0 then fs
    else
      var before := CrawlFs(fs, job, first, k - 1, crawl);
      var call := CallFor(job, first, k - 1);
      if UniquePaths(fs) then CrawlRangeKeepsUnique(before, call, crawl); CrawlRange(before, call, crawl).fs
      else CrawlRange(before, call, crawl).fs
  }

  /** One `crawl_range` call changes nothing that existed outside `out_dir`. */
  lemma CrawlStepStaysInOutDir(fs: Fs, job: Job, first: nat, k: nat, crawl: Crawler, q: Path)
    requires 0 < k <= |job.ranges|
    requires Lookup(CrawlFs(fs, job, first, k - 1, crawl), q).Some? && !StrictlyUnder(q, job.outDir)
    ensures Lookup(CrawlFs(fs, job, first, k, crawl), q) == Lookup(CrawlFs(fs, job, first, k - 1, crawl), q)
  {
    var j := k - 1;
    var call := CallFor(job, first, j);
    CrawlFsStep(fs, job, first, k, crawl);
    assert !StrictlyUnder(q, call.dir);
  }

  lemma CrawlFsStep(fs: Fs, job: Job, first: nat, k: nat, crawl: Crawler)
    requires 0 < k <= |job.ranges|
    ensures CrawlFs(fs, job, first, k, crawl) ==
      CrawlRange(CrawlFs(fs, job, first, k - 1, crawl), CallFor(job, first, k - 1), crawl).fs
  {
  }

  /** The crawl touches nothing outside `out_dir`: every path that existed
      outside it before looks the same afterwards. */
  lemma {:induction false} CrawlStaysInOutDir(fs: Fs, job: Job, first: nat, k: nat, crawl: Crawler, q: Path)
    requires k <= |job.ranges|
    requires Lookup(fs, q).Some? && !StrictlyUnder(q, job.outDir)
    ensures Lookup(CrawlFs(fs, job, first, k, crawl), q) == Lookup(fs, q)
  {
    if k == 0 {
    } else {
      var j := k - 1;
      CrawlStaysInOutDir(fs, job, first, j, crawl, q);
      CrawlStepStaysInOutDir(fs, job, first, k, crawl, q);
    }
  }

  /** The rows `create_pairs` hands to `write_csv`. */
  function AsRows(pairs: seq<Pair>): (rows: seq<InRow>)
    ensures |rows| == |pairs|
  {
    seq(|pairs|, i requires 0 <= i < |pairs| => Fields([pairs[i].abs, pairs[i].rel]))
  }

  /** `write_csv` accepts every row `create_pairs` makes and writes its pairs. */
  lemma RowsOfPairs(pairs: seq<Pair>)
    ensures AllWritable(AsRows(pairs))
    ensures FirstBadRow(AsRows(pairs)) == |pairs|
    ensures FirstTwo(AsRows(pairs)) == pairs
    ensures FirstTwo(AsRows(pairs)[..FirstBadRow(AsRows(pairs))]) == pairs
  {
    var rows := AsRows(pairs);
    assert AllWritable(rows);
    var k := FirstBadRow(rows);
    if k < |rows| {
      assert false;
    } else {
      assert rows[..|rows|] == rows;
    }
  }

  /** `csv_path.parent`; the root is its own parent. */
  function Parent(p: Path): Path {
    if p == [] then [] else p[..|p| - 1]
  }

  /** The file part of `write_csv`: make the parent directories, then open the
      file for writing (a directory there raises) and store the text. */
  function WriteManifest(fs: Fs, csv: Path, text: string): (r: Effect)
    ensures r.err.Some? <==> csv == [] || IsDir(MkDirs(fs, Parent(csv)), csv)
    ensures r.err.None? ==> Lookup(r.fs, csv) == Some(File(csv, text))
    ensures r.err.Some? ==> r.err == Some(IsADirectory)
  {
    var made := MkDirs(fs, Parent(csv));
    if csv == [] then Effect(made, Some(IsADirectory))
    else match WriteFile(made, csv, text)
      case Ok(written) => Effect(written, None)
      case Err(e) => Effect(made, Some(IsADirectory))
  }

  /** Writing the manifest changes no other path that already existed. */
  lemma WriteManifestKeeps(fs: Fs, csv: Path, text: string, q: Path)
    requires Exists(fs, q) && q != csv
    ensures Lookup(WriteManifest(fs, csv, text).fs, q) == Lookup(fs, q)
  {
  }

  lemma WriteManifestKeepsUnique(fs: Fs, csv: Path, text: string)
    requires UniquePaths(fs)
    ensures UniquePaths(WriteManifest(fs, csv, text).fs)
  {
    var made := MkDirs(fs, Parent(csv));
    MkDirsKeepsUnique(fs, Parent(csv));
    if csv != [] && WriteFile(made, csv, text).Ok? {
      WriteFileKeepsUnique(made, csv, text);
    }
  }

  /** The outcome of `download_images`: the filesystem, the crawl calls in
      order, the pairs written to the manifest and the exception, if any. */
  datatype Downloaded = Downloaded(fs: Fs, calls: seq<CrawlCall>, pairs: seq<Pair>, err: Option<Error>)

  /** `download_images`: crawl the windows in order until one raises; if none
      does, scan `out_dir` once and write the manifest of what is there. */
  function DownloadSpec(fs: Fs, job: Job, variant: Variant, crawl: Crawler): Downloaded {
    var first, n := variant.firstRangeIndex, |job.ranges|;
    var f := FirstFailure(job, first, n, crawl);
    if f < n then
      Downloaded(CrawlFs(fs, job, first, f + 1, crawl), Calls(job, first, f + 1), [],
                 Some(FetchFailed(crawl(CallFor(job, first, f)).reason)))
    else
      var crawled := CrawlFs(fs, job, first, n, crawl);
      ScanBelowBaseSucceeds(RGlob(crawled, job.outDir), job.outDir, variant.extensions);
      var pairs := Scan(RGlob(crawled, job.outDir), job.outDir, variant.extensions).value;
      var w := WriteManifest(crawled, job.csv, EncodeRecords([Header] + pairs));
      Downloaded(w.fs, Calls(job, first, n), pairs, w.err)
  }

  /** The loop of `download_images`, then `create_pairs` and `write_csv`. */
  method DownloadImages(fs: Fs, job: Job, variant: Variant, crawl: Crawler) returns (d: Downloaded)
    ensures d == DownloadSpec(fs, job, variant, crawl)
  {
    var first := variant.firstRangeIndex;
    var cur := fs;
    var calls: seq<CrawlCall> := [];
    var i := 0;
    while i < |job.ranges|
      invariant 0 <= i <= |job.ranges|
      invariant cur == CrawlFs(fs, job, first, i, crawl)
      invariant calls == Calls(job, first, i)
      invariant FirstFailure(job, first, i, crawl) == i
    {
      var call := CallFor(job, first, i);
      var c := CrawlRange(cur, call, crawl);
      CallsSnoc(job, first, i);
      calls := calls + [call];
      if c.err.Some? {
        DownloadFailsAt(fs, job, variant, crawl, i);
        return Downloaded(c.fs, calls, [], c.err);
      }
      cur := c.fs;
      i := i + 1;
    }
    var pairs := CreatePairs(cur, job.outDir, variant.extensions);
    var rows := AsRows(pairs.value);
    RowsOfPairs(pairs.value);
    var text, _ := WriteCsv(rows);
    assert FirstTwo(rows[..FirstBadRow(rows)]) == pairs.value;
    DownloadCompletes(fs, job, variant, crawl, text);
    var w := WriteManifest(cur, job.csv, text);
    return Downloaded(w.fs, calls, pairs.value, w.err);
  }

  /** Once every window is crawled, the outcome is the manifest write of the
      scanned pairs. */
  lemma DownloadCompletes(fs: Fs, job: Job, variant: Variant, crawl: Crawler, text: string)
    requires FirstFailure(job, variant.firstRangeIndex, |job.ranges|, crawl) == |job.ranges|
    requires var crawled := CrawlFs(fs, job, variant.firstRangeIndex, |job.ranges|, crawl);
      Scan(RGlob(crawled, job.outDir), job.outDir, variant.extensions).Ok? &&
      text == EncodeRecords([Header] + Scan(RGlob(crawled, job.outDir), job.outDir, variant.extensions).value)
    ensures var crawled := CrawlFs(fs, job, variant.firstRangeIndex, |job.ranges|, crawl);
      var w := WriteManifest(crawled, job.csv, text);
      DownloadSpec(fs, job, variant, crawl) ==
        Downloaded(w.fs, Calls(job, variant.firstRangeIndex, |job.ranges|),
                   Scan(RGlob(crawled, job.outDir), job.outDir, variant.extensions).value, w.err)
  {
  }

  lemma DownloadFailsAt(fs: Fs, job: Job, variant: Variant, crawl: Crawler, i: nat)
    requires i < |job.ranges|
    requires FirstFailure(job, variant.firstRangeIndex, i, crawl) == i
    requires crawl(CallFor(job, variant.firstRangeIndex, i)).Failed?
    ensures var first := variant.firstRangeIndex;
      var c := CrawlRange(CrawlFs(fs, job, first, i, crawl), CallFor(job, first, i), crawl);
      DownloadSpec(fs, job, variant, crawl) == Downloaded(c.fs, Calls(job, first, i + 1), [], c.err)
  {
    FirstFailureSticks(job, variant.firstRangeIndex, i, |job.ranges|, crawl);
  }

  /** The crawler is called once per window, in window order, with the
      window's own directory and the cap as `max_num`, until the first call
      that raises; that exception ends the download before any manifest is
      written. */
  lemma DownloadCallsInOrder(fs: Fs, job: Job, variant: Variant, crawl: Crawler)
    ensures var d := DownloadSpec(fs, job, variant, crawl);
      |d.calls| <= |job.ranges| &&
      (forall i :: 0 <= i < |d.calls| ==> d.calls[i] == CallFor(job, variant.firstRangeIndex, i)) &&
      (forall i :: 0 <= i < |d.calls| - 1 ==> crawl(d.calls[i]).Fetched?) &&
      (|d.calls| < |job.ranges| ==> d.err.Some? && d.pairs == [])
  {
  }

  /** Apart from the manifest, the download changes nothing that existed
      outside `out_dir`. */
  lemma DownloadStaysInOutDir(fs: Fs, job: Job, variant: Variant, crawl: Crawler, q: Path)
    requires Lookup(fs, q).Some? && !StrictlyUnder(q, job.outDir) && q != job.csv
    ensures Lookup(DownloadSpec(fs, job, variant, crawl).fs, q) == Lookup(fs, q)
  {
    var first, n := variant.firstRangeIndex, |job.ranges|;
    var f := FirstFailure(job, first, n, crawl);
    if f < n {
      assert DownloadSpec(fs, job, variant, crawl).fs == CrawlFs(fs, job, first, f + 1, crawl);
      CrawlStaysInOutDir(fs, job, first, f + 1, crawl, q);
    } else {
      CrawlStaysInOutDir(fs, job, first, n, crawl, q);
      var crawled := CrawlFs(fs, job, first, n, crawl);
      ScanBelowBaseSucceeds(RGlob(crawled, job.outDir), job.outDir, variant.extensions);
      var pairs := Scan(RGlob(crawled, job.outDir), job.outDir, variant.extensions).value;
      var text := EncodeRecords([Header] + pairs);
      assert DownloadSpec(fs, job, variant, crawl).fs == WriteManifest(crawled, job.csv, text).fs;
      WriteManifestKeeps(crawled, job.csv, text, q);
    }
  }

  /** The download ends without an exception exactly when every crawl
      fetched and the manifest path, after the crawl, is not the root and
      not a directory. */
  lemma DownloadSucceedsIff(fs: Fs, job: Job, variant: Variant, crawl: Crawler)
    ensures DownloadSpec(fs, job, variant, crawl).err.None? <==>
      FirstFailure(job, variant.firstRangeIndex, |job.ranges|, crawl) == |job.ranges| &&
      job.csv != [] && !IsDir(CrawlFs(fs, job, variant.firstRangeIndex, |job.ranges|, crawl), job.csv)
  {
    var first, n := variant.firstRangeIndex, |job.ranges|;
    var crawled := CrawlFs(fs, job, first, n, crawl);
    if job.csv != [] {
      MkDirsIgnoresDeeper(crawled, Parent(job.csv), job.csv);
    }
    if FirstFailure(job, first, n, crawl) == n {
      ScanBelowBaseSucceeds(RGlob(crawled, job.outDir), job.outDir, variant.extensions);
      var pairs := Scan(RGlob(crawled, job.outDir), job.outDir, variant.extensions).value;
      var text := EncodeRecords([Header] + pairs);
      assert DownloadSpec(fs, job, variant, crawl).err == WriteManifest(crawled, job.csv, text).err;
    }
  }

  /** A manifest file that already exists outside `out_dir` is overwritten
      once every crawl has fetched. */
  lemma DownloadOverwritesManifest(fs: Fs, job: Job, variant: Variant, crawl: Crawler)
    requires FirstFailure(job, variant.firstRangeIndex, |job.ranges|, crawl) == |job.ranges|
    requires job.csv != [] && IsFile(fs, job.csv) && !StrictlyUnder(job.csv, job.outDir)
    ensures DownloadSpec(fs, job, variant, crawl).err.None?
  {
    CrawlStaysInOutDir(fs, job, variant.firstRangeIndex, |job.ranges|, crawl, job.csv);
    DownloadSucceedsIff(fs, job, variant, crawl);
  }

  /** A download leaves a well-formed filesystem well-formed: one entry per
      path, whether it stops at a failed crawl or writes the manifest. */
  lemma DownloadKeepsUnique(fs: Fs, job: Job, variant: Variant, crawl: Crawler)
    requires UniquePaths(fs)
    ensures UniquePaths(DownloadSpec(fs, job, variant, crawl).fs)
  {
    var first, n := variant.firstRangeIndex, |job.ranges|;
    var f := FirstFailure(job, first, n, crawl);
    if f < n {
      assert DownloadSpec(fs, job, variant, crawl).fs == CrawlFs(fs, job, first, f + 1, crawl);
    } else {
      var crawled := CrawlFs(fs, job, first, n, crawl);
      ScanBelowBaseSucceeds(RGlob(crawled, job.outDir), job.outDir, variant.extensions);
      var pairs := Scan(RGlob(crawled, job.outDir), job.outDir, variant.extensions).value;
      var text := EncodeRecords([Header] + pairs);
      WriteManifestKeepsUnique(crawled, job.csv, text);
      assert DownloadSpec(fs, job, variant, crawl).fs == WriteManifest(crawled, job.csv, text).fs;
    }
  }

  /** After a download without exceptions, every window was crawled in order,
      and the manifest holds the header and one record per asset below
      `out_dir`. */
  lemma DownloadWritesManifest(fs: Fs, job: Job, variant: Variant, crawl: Crawler)
    requires DownloadSpec(fs, job, variant, crawl).err.None?
    ensures var d := DownloadSpec(fs, job, variant, crawl);
      |d.calls| == |job.ranges| &&
      (forall i :: 0 <= i < |job.ranges| ==> crawl(d.calls[i]).Fetched?) &&
      Lookup(d.fs, job.csv) == Some(File(job.csv, EncodeRecords([Header] + d.pairs)))
  {
  }

  // ---------------------------------------------------------------------------
  // `main`
  // ---------------------------------------------------------------------------

  /** The command line: `--range` strings as given, the other options already
      converted by argparse. */
  datatype Args = Args(keyword: string, outDir: Path, csv: Path, ranges: seq<string>, perRange: int)

  /** The `--range` values, each converted by `parse_range`. */
  function ParseRanges(ranges: seq<string>): (r: Result<seq<DateWindow>>)
    ensures r.Ok? <==> forall i :: 0 <= i < |ranges| ==> ParseRange(ranges[i]).Ok?
    ensures r.Ok? ==> |r.value| == |ranges| && forall i :: 0 <= i < |ranges| ==> r.value[i] == ParseRange(ranges[i]).value
  {
    if ranges == [] then Ok([])
    else
      var rest := ranges[1..];
      ParseRangesCons(ranges);
      match ParseRange(ranges[0])
      case Err(e) => Err(e)
      case Ok(w) =>
        match ParseRanges(rest)
        case Err(e) => Err(e)
        case Ok(ws) => Ok([w] + ws)
  }

  lemma ParseRangesCons(ranges: seq<string>)
    requires ranges != []
    ensures forall i :: 1 <= i < |ranges| ==> ranges[i] == ranges[1..][i - 1]
    ensures (forall i :: 0 <= i < |ranges| ==> ParseRange(ranges[i]).Ok?) <==>
      ParseRange(ranges[0]).Ok? && forall i :: 0 <= i < |ranges[1..]| ==> ParseRange(ranges[1..][i]).Ok?
  {
    var rest := ranges[1..];
    assert forall i :: 1 <= i < |ranges| ==> ranges[i] == rest[i - 1];
  }

  /** argparse: `--range` is required, and each value must convert. */
  function ParseArgs(ranges: seq<string>): Result<seq<DateWindow>> {
    if ranges == [] then Err(MissingRange) else ParseRanges(ranges)
  }

  /** What a run leaves behind: the filesystem, the crawl calls, the items
      printed to stdout, the exception printed to stderr and the exit status. */
  datatype RunOutcome = RunOutcome(fs: Fs, calls: seq<CrawlCall>, printed: seq<Pair>, stderr: Option<Error>, status: int)

  /** `main` after argparse: check the cap, download, then iterate over the
      manifest if it exists and over `out_dir` otherwise, always relative to
      `out_dir`.  Every exception is printed and the process ends normally,
      with nothing printed to stdout after it. */
  function RunParsed(fs: Fs, args: Args, windows: seq<DateWindow>, variant: Variant, crawl: Crawler): (o: RunOutcome)
    ensures o.status == 0
    ensures o.stderr.Some? ==> o.printed == []
  {
    if CheckRange(args.perRange).Some? then RunOutcome(fs, [], [], CheckRange(args.perRange), 0)
    else
      var d := DownloadSpec(fs, Job(args.keyword, args.outDir, args.csv, windows, args.perRange), variant, crawl);
      if d.err.Some? then RunOutcome(d.fs, d.calls, [], d.err, 0)
      else
        var source := if Exists(d.fs, args.csv) then args.csv else args.outDir;
        match OpenItems(d.fs, source, Some(args.outDir), variant.extensions)
        case Err(e) => RunOutcome(d.fs, d.calls, [], Some(e), 0)
        case Ok(items) => RunOutcome(d.fs, d.calls, items, None, 0)
  }

  /** `main`: an argparse error ends the process with status 2 before anything
      else happens. */
  function RunSpec(fs: Fs, args: Args, variant: Variant, crawl: Crawler): RunOutcome {
    match ParseArgs(args.ranges)
    case Err(e) => RunOutcome(fs, [], [], Some(e), 2)
    case Ok(windows) => RunParsed(fs, args, windows, variant, crawl)
  }

  /** `main()` for the given copy. */
  method Run(fs: Fs, args: Args, variant: Variant, crawl: Crawler) returns (o: RunOutcome)
    ensures o == RunSpec(fs, args, variant, crawl)
  {
    var parsed := ParseArgs(args.ranges);
    if parsed.Err? {
      return RunOutcome(fs, [], [], Some(parsed.error), 2);
    }
    var capError := CheckRange(args.perRange);
    if capError.Some? {
      return RunOutcome(fs, [], [], capError, 0);
    }
    var job := Job(args.keyword, args.outDir, args.csv, parsed.value, args.perRange);
    var d := DownloadImages(fs, job, variant, crawl);
    if d.err.Some? {
      return RunOutcome(d.fs, d.calls, [], d.err, 0);
    }
    var source := if Exists(d.fs, args.csv) then args.csv else args.outDir;
    var it := Open(d.fs, source, Some(args.outDir), variant.extensions);
    if it.Err? {
      return RunOutcome(d.fs, d.calls, [], Some(it.error), 0);
    }
    var printed := it.value.Drain();
    return RunOutcome(d.fs, d.calls, printed, None, 0);
  }

  /** The process fails (status 2) exactly when argparse refuses the command
      line; every exception after that is caught, so the status is 0. */
  lemma RunStatus(fs: Fs, args: Args, variant: Variant, crawl: Crawler)
    ensures var o := RunSpec(fs, args, variant, crawl);
      (o.status == 2 <==> ParseArgs(args.ranges).Err?) && (o.status == 0 <==> ParseArgs(args.ranges).Ok?)
    ensures RunSpec(fs, args, variant, crawl).stderr.Some? ==> RunSpec(fs, args, variant, crawl).printed == []
  {
  }

  /** A cap outside [50, 1000] is reported before any download: no crawl call
      is made and the filesystem is untouched. */
  lemma CapCheckedBeforeCrawl(fs: Fs, args: Args, variant: Variant, crawl: Crawler)
    requires ParseArgs(args.ranges).Ok?
    requires !(MinPerRange <= args.perRange <= MaxPerRange)
    ensures var o := RunSpec(fs, args, variant, crawl);
      o.calls == [] && o.fs == fs && o.printed == [] && o.stderr == Some(PerRangeOutOfBounds) && o.status == 0
  {
  }

  /** A clean run prints exactly the pairs written to the manifest, in order:
      the manifest exists after the download and is read back. */
  lemma CleanRunPrintsManifest(fs: Fs, args: Args, variant: Variant, crawl: Crawler, windows: seq<DateWindow>)
    requires ParseArgs(args.ranges) == Ok(windows)
    requires MinPerRange <= args.perRange <= MaxPerRange
    requires Lower(Suffix(Name(args.csv))) == ".csv"
    requires var d := DownloadSpec(fs, Job(args.keyword, args.outDir, args.csv, windows, args.perRange), variant, crawl);
      d.err.None? && forall k :: 0 <= k < |d.pairs| ==> Clean(d.pairs[k].abs) && Clean(d.pairs[k].rel)
    ensures var o := RunSpec(fs, args, variant, crawl);
      var d := DownloadSpec(fs, Job(args.keyword, args.outDir, args.csv, windows, args.perRange), variant, crawl);
      o.printed == d.pairs && o.stderr == None && o.status == 0
  {
    var job := Job(args.keyword, args.outDir, args.csv, windows, args.perRange);
    var d := DownloadSpec(fs, job, variant, crawl);
    DownloadWritesManifest(fs, job, variant, crawl);
    OpenWrittenManifest(d.fs, args.csv, Some(args.outDir), variant.extensions, d.pairs);
  }

  /** A manifest path without a `.csv` suffix is written, but then it is
      neither a manifest nor a directory, so the iteration raises the
      `ValueError` about the source and nothing is printed. */
  lemma NonCsvManifestIsRejected(fs: Fs, args: Args, variant: Variant, crawl: Crawler, windows: seq<DateWindow>)
    requires ParseArgs(args.ranges) == Ok(windows)
    requires MinPerRange <= args.perRange <= MaxPerRange
    requires Lower(Suffix(Name(args.csv))) != ".csv"
    requires DownloadSpec(fs, Job(args.keyword, args.outDir, args.csv, windows, args.perRange), variant, crawl).err.None?
    ensures var o := RunSpec(fs, args, variant, crawl);
      o.printed == [] && o.stderr == Some(InvalidSource) && o.status == 0
  {
    var job := Job(args.keyword, args.outDir, args.csv, windows, args.perRange);
    DownloadWritesManifest(fs, job, variant, crawl);
    var d := DownloadSpec(fs, job, variant, crawl);
    assert Exists(d.fs, args.csv);
    assert OpenItems(d.fs, args.csv, Some(args.outDir), variant.extensions) == Err(InvalidSource);
    assert RunSpec(fs, args, variant, crawl) == RunParsed(fs, args, windows, variant, crawl);
  }

  /** The extension of `stem.webp`, lower-cased, is `.webp`. */
  lemma WebpSuffix(stem: string)
    requires stem != ""
    ensures Lower(Suffix(stem + ".webp")) == ".webp"
  {
    SuffixOfStemAndExtension(stem, ".webp");
    assert Lower(".webp") == ".webp";
  }

  /** The extension of `stem.jpg`, lower-cased, is `.jpg`. */
  lemma JpgSuffix(stem: string)
    requires stem != ""
    ensures Lower(Suffix(stem + ".jpg")) == ".jpg"
  {
    SuffixOfStemAndExtension(stem, ".jpg");
    assert Lower(".jpg") == ".jpg";
  }

  /** Only lab2/main.py lists `.webp` files. */
  lemma WebpOnlyInLab2Main(dir: Path, stem: string, content: string)
    requires stem != ""
    ensures IsAsset(File(dir + [stem + ".webp"], content), Lab2Main.extensions)
    ensures !IsAsset(File(dir + [stem + ".webp"], content), CrawlerModule.extensions)
  {
    WebpSuffix(stem);
  }

  /** Both copies list `.jpg` files. */
  lemma JpgInBoth(dir: Path, stem: string, content: string)
    requires stem != ""
    ensures IsAsset(File(dir + [stem + ".jpg"], content), Lab2Main.extensions)
    ensures IsAsset(File(dir + [stem + ".jpg"], content), CrawlerModule.extensions)
  {
    JpgSuffix(stem);
  }
}
