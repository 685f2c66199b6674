/** hicr.py: the scraper that downloads an article as a zip file through its
    download button. Modelled here: the retry loop `try_access_page`, the progress-bar
    watch `wait_for_download_start`, the folder name a downloaded zip file is
    extracted to, the names `mark_and_move` gives left-over files, and the listing
    scan `append_articles_to_scan`, which adds `(url, domain_tag)` pairs to a shared
    scan list. */
module Hicr {
  import opened Strings
  import opened Optional
  import opened Format
  import opened Common
  import opened Media
  import opened Listing

  // ---------------------------------------------------------------------------
  // try_access_page

  /** How one `driver.get(url)` ends: loaded, or one of the two exceptions the loop
      catches. */
  datatype Load = Loaded | TimedOut | Unreachable

  /** Some attempt among the first `trial` ones loads the page. */
  predicate Reached(loads: nat -> Load, trial: int) {
    exists i :: 0 <= i < trial && loads(i) == Loaded
  }

  /** `try_access_page(driver, url, trial)`: `loads(i)` is how attempt `i` ends. */
  method TryAccessPage(loads: nat -> Load, trial: int) returns (ok: bool)
    ensures ok <==> Reached(loads, trial)
  {
    var i := 0;
    while i < trial
      invariant 0 <= i && (trial >= 0 ==> i <= trial)
      invariant forall j :: 0 <= j < i ==> loads(j) != Loaded
      decreases trial - i
    {
      if loads(i) == Loaded {
        return true;
      }
      i := i + 1;
    }
    return false;
  }

  // ---------------------------------------------------------------------------
  // wait_for_download_start

  /** One look at the progress bar: whether its `style` attribute is set (the
      download button is visible again) and its `aria-valuenow` as a number
      (0 when the attribute is empty). */
  datatype Reading = Reading(visible: bool, progress: real)

  const CHECK_INTERVAL: int := 5
  const MAX_STALLS: int := 3

  /** `max(20.0, loading_sec * 50)`, replaced by `800 * jitter` when above 800, where
      `jitter` is the `random.uniform(1, 1.2)` draw. */
  function StartTimeout(loadingSec: real, jitter: real): (t: real)
    requires 1.0 <= jitter <= 1.2
    ensures 20.0 <= t <= 960.0
    ensures t >= loadingSec * 50.0 || t >= 800.0
    ensures loadingSec * 50.0 <= 800.0 ==> t == 20.0 || t == loadingSec * 50.0
  {
    var t := if loadingSec * 50.0 > 20.0 then loadingSec * 50.0 else 20.0;
    if t > 800.0 then 800.0 * jitter else t
  }

  /** The watch loop from its `n`-th pass (`seconds == 5 * n`), with the started flag
      and the count of consecutive stalled readings: true when the button shows again
      after the download started, false on the timeout or after too many stalls. The
      progress is always compared with 0, the value `prev_progress` keeps. */
  function Watch(readingAt: nat -> Reading, timeout: real, n: nat, started: bool, stalls: nat): bool
    decreases timeout.Floor + CHECK_INTERVAL - CHECK_INTERVAL * n
  {
    if (CHECK_INTERVAL * n) as real > timeout then false
    else
      var r := readingAt(n);
      if !r.visible then
        if r.progress > 0.0 then Watch(readingAt, timeout, n + 1, true, 0)
        else if stalls <= MAX_STALLS then Watch(readingAt, timeout, n + 1, true, stalls + 1)
        else false
      else if started then true
      else Watch(readingAt, timeout, n + 1, started, stalls)
  }

  /** `wait_for_download_start(dl_browser, loading_sec)`: `readingAt(n)` is what the
      `n`-th look at the progress bar shows. True means the download finished. */
  method WaitForDownloadStart(readingAt: nat -> Reading, loadingSec: real, jitter: real) returns (finished: bool)
    requires 1.0 <= jitter <= 1.2
    ensures finished == Watch(readingAt, StartTimeout(loadingSec, jitter), 0, false, 0)
  {
    var seconds := 0;
    var timeout := StartTimeout(loadingSec, jitter);
    var prevProgress := 0.0;
    var hasStarted := false;
    var consecutiveFailure: nat := 0;
    var n: nat := 0;
    while seconds as real <= timeout
      invariant seconds == CHECK_INTERVAL * n
      invariant Watch(readingAt, timeout, 0, false, 0) == Watch(readingAt, timeout, n, hasStarted, consecutiveFailure)
      decreases timeout.Floor - seconds
    {
      seconds := seconds + CHECK_INTERVAL;
      var reading := readingAt(n);
      n := n + 1;
      if !reading.visible {
        if !hasStarted {
          hasStarted := true;
        }
        if reading.progress > prevProgress {
          consecutiveFailure := 0;
        } else if consecutiveFailure <= MAX_STALLS {
          consecutiveFailure := consecutiveFailure + 1;
        } else {
          return false;
        }
      } else if hasStarted {
        return true;
      }
    }
    return false;
  }

  // ---------------------------------------------------------------------------
  // __move_downloaded_file and mark_and_move

  /** The chain of splits and strips that turns the zip file's path into the bare
      folder name: before '.zip', after the last '/', after the last '|', '_' stripped,
      after the last '_', whitespace stripped. */
  function BaseName(zipPath: string): string {
    var name := LastPiece(LastPiece(FirstPiece(zipPath, ".zip"), "/"), "|");
    Strip(LastPiece(StripChars(name, {'_'}), "_"))
  }

  /** The folder a zip file is extracted to: the three-digit entry count, '-', the tag
      and '-' when there is a tag, then the base name with the prohibited characters
      made '_'. */
  function DirName(zipPath: string, prohibited: set<char>, tagName: string, fileCount: nat): string {
    ZeroPad(fileCount, 3) + "-" + (if tagName != "" then tagName + "-" else "") + Sanitised(BaseName(zipPath), prohibited)
  }

  /** The folder-name composition of `__move_downloaded_file` for one zip file:
      `prohibited` is the list of prohibited characters and `fileCount` the number of
      entries in the archive. */
  method ComposeDirName(zipPath: string, prohibited: seq<char>, tagName: string, fileCount: nat)
    returns (dirName: string)
    ensures dirName == DirName(zipPath, (set c | c in prohibited), tagName, fileCount)
  {
    dirName := BaseName(zipPath);
    dirName := ReplaceProhibited(dirName, prohibited);
    if tagName != "" {
      dirName := tagName + "-" + dirName;
    }
    dirName := ZeroPad(fileCount, 3) + "-" + dirName;
  }

  /** `mark_and_move(current_path, destination_path)`: the `(from, to)` path pair of
      each `os.rename`, for the files `os.listdir` lists. */
  method MarkAndMove(files: seq<string>, currentPath: string, destinationPath: string)
    returns (renames: seq<(string, string)>)
    ensures |renames| == |files|
    ensures forall k :: 0 <= k < |files| ==>
      renames[k] == (currentPath + files[k], destinationPath + "err-" + files[k])
  {
    renames := [];
    for i := 0 to |files|
      invariant |renames| == i
      invariant forall k :: 0 <= k < i ==>
        renames[k] == (currentPath + files[k], destinationPath + "err-" + files[k])
    {
      renames := renames + [(currentPath + files[i], destinationPath + "err-" + files[i])];
    }
  }

  // ---------------------------------------------------------------------------
  // append_articles_to_scan

  /** A listing row: the day difference of its `p.date` stamp (`None` when it does not
      parse), and the `href` and text of its `h1 > a` link. */
  datatype Row = Row(dayDiff: Option<int>, href: Option<string>, title: Option<string>)

  const TOO_YOUNG_DAY: int := 1
  const TOO_OLD_DAY: int := 3
  const TRIAL: int := 3
  const RELOADS: nat := 3

  /** What the row loop does with one row; a missing link, `href` or link text raises
      and the row is skipped. */
  function Classify(root: string, row: Row): Verdict {
    if row.dayDiff.None? || row.dayDiff.value == 0 then Skip
    else if row.dayDiff.value <= TOO_YOUNG_DAY then Skip
    else if row.dayDiff.value >= TOO_OLD_DAY then Stop
    else if row.href.None? || row.title.None? then Skip
    else Take(root + row.href.value)
  }

  function Classifier(root: string): Row -> Verdict {
    r => Classify(root, r)
  }

  /** The rows of the first of `count` parses that finds any. */
  function FirstRows(parses: nat -> seq<Row>, i: nat, count: nat): Option<seq<Row>>
    decreases count - i
  {
    if i >= count then None
    else if |parses(i)| > 0 then Some(parses(i))
    else FirstRows(parses, i + 1, count)
  }

  /** The rows the loop inspects on one page: `None` when the page cannot be reached
      or shows no rows after three parses, which ends the scan. */
  function PageRows(loads: nat -> Load, parses: nat -> seq<Row>): Option<seq<Row>> {
    if !Reached(loads, TRIAL) then None else FirstRows(parses, 0, RELOADS)
  }

  /** The article urls the page loop takes from pages `first .. last`, in order, where
      `steps(p)` is what page `p` contributes and whether the scan ends with it. */
  function Scanned(steps: int -> (seq<string>, bool), first: int, last: int): seq<string>
    decreases last - first + 1
  {
    if first > last then []
    else if steps(first).1 then steps(first).0
    else steps(first).0 + Scanned(steps, first + 1, last)
  }

  /** The contribution of every page, given what its loads and parses give. */
  function Steps(pageLoads: int -> nat -> Load, pageParses: int -> nat -> seq<Row>, root: string): int -> (seq<string>, bool) {
    p => PageStep(pageLoads(p), pageParses(p), root)
  }

  /** What one page contributes: the urls its rows give, and whether the scan ends
      with it (the page cannot be shown, or a row is too old). */
  function PageStep(loads: nat -> Load, parses: nat -> seq<Row>, root: string): (seq<string>, bool) {
    match PageRows(loads, parses)
    case None => ([], true)
    case Some(rows) =>
      var here := Classified(rows, Classifier(root));
      (Collect(here), Stop in here)
  }

  /** A scan-list entry: an article url and the tag of the listing it came from. */
  type Entry = (string, string)

  predicate HasUrl(entries: seq<Entry>, url: string) {
    exists k :: 0 <= k < |entries| && entries[k].0 == url
  }

  /** No url is listed twice. */
  predicate NoDuplicateUrls(entries: seq<Entry>) {
    forall i, j :: 0 <= i < j < |entries| ==> entries[i].0 != entries[j].0
  }

  /** Python values as far as the duplicate check sees them. */
  datatype PyValue = Str(s: string) | Tuple(items: seq<PyValue>)

  function Boxed(entries: seq<Entry>): (vs: seq<PyValue>)
    ensures |vs| == |entries|
    ensures forall k :: 0 <= k < |entries| ==> vs[k] == Tuple([Str(entries[k].0), Str(entries[k].1)])
  {
    seq(|entries|, k requires 0 <= k < |entries| => Tuple([Str(entries[k].0), Str(entries[k].1)]))
  }

  /** The duplicate check as written: `url not in scan_list`, a string looked for in a
      list of pairs. */
  function AddAsWritten(entries: seq<Entry>, url: string, domainTag: string): seq<Entry> {
    if Str(url) !in Boxed(entries) then entries + [(url, domainTag)] else entries
  }

  /** One row's append with the duplicate check comparing urls. */
  function AddEntry(entries: seq<Entry>, url: string, domainTag: string): seq<Entry> {
    if HasUrl(entries, url) then entries else entries + [(url, domainTag)]
  }

  /** One row's append: with the check as written when `compareUrls` is false, with
      the check comparing urls when it is true. */
  function Add(entries: seq<Entry>, url: string, domainTag: string, compareUrls: bool): seq<Entry> {
    if compareUrls then AddEntry(entries, url, domainTag) else AddAsWritten(entries, url, domainTag)
  }

  /** The list after appending `urls` one by one. */
  function Merged(entries: seq<Entry>, urls: seq<string>, domainTag: string, compareUrls: bool): seq<Entry>
    decreases |urls|
  {
    if urls == [] then entries
    else Add(Merged(entries, urls[..|urls| - 1], domainTag, compareUrls), urls[|urls| - 1], domainTag, compareUrls)
  }

  /** The `for i in range(3)` loop that parses the page until it shows rows. */
  method ReadRows(parses: nat -> seq<Row>) returns (found: bool, rows: seq<Row>)
    ensures FirstRows(parses, 0, RELOADS) == if found then Some(rows) else None
  {
    rows, found := [], false;
    for i := 0 to RELOADS
      invariant FirstRows(parses, 0, RELOADS) == if found then Some(rows) else FirstRows(parses, i, RELOADS)
    {
      rows := parses(i);
      if |rows| > 0 {
        found := true;
        break;
      }
    }
  }

  /** The list `append_articles_to_scan` fills, shared by the scans of all listings. */
  class ScanList {
    var entries: seq<Entry>

    constructor ()
      ensures entries == []
    {
      entries := [];
    }

    /** The row loop of one page: appends each taken url that passes the duplicate
        check, and says whether a row ended the scan. */
    method AddRows(rows: seq<Row>, root: string, domainTag: string, compareUrls: bool) returns (stopped: bool)
      modifies this
      ensures stopped <==> Stop in Classified(rows, Classifier(root))
      ensures entries == Merged(old(entries), Collect(Classified(rows, Classifier(root))), domainTag, compareUrls)
    {
      ghost var here := Classified(rows, Classifier(root));
      for i := 0 to |rows|
        invariant entries == Merged(old(entries), Collect(here[..i]), domainTag, compareUrls)
        invariant Stop !in here[..i]
      {
        assert here[..i + 1] == here[..i] + [here[i]];
        CollectAppend(here[..i], [here[i]]);
        var verdict := Classify(root, rows[i]);
        assert verdict == here[i];
        match verdict {
          case Stop =>
            CollectStopped(here[..i + 1], here[i + 1..]);
            assert here[..i + 1] + here[i + 1..] == here;
            assert here[i] in here;
            assert Collect([Stop]) == [];
            assert Collect(here) == Collect(here[..i]) + [];
            assert Collect(here[..i]) + [] == Collect(here[..i]);
            return true;
          case Skip =>
            assert Collect(here[..i + 1]) == Collect(here[..i]);
          case Take(url) =>
            ghost var before := Collect(here[..i]);
            assert Collect(here[..i + 1]) == before + [url];
            assert (before + [url])[..|before|] == before;
            entries := Add(entries, url, domainTag, compareUrls);
        }
      }
      assert here[..|rows|] == here;
      stopped := false;
    }

    /** One pass of the page loop: load the page, read its rows, add what they give.
        Says whether the scan ends here. */
    method ScanPage(loads: nat -> Load, parses: nat -> seq<Row>, root: string, domainTag: string, compareUrls: bool)
      returns (ends: bool)
      modifies this
      ensures ends == PageStep(loads, parses, root).1
      ensures entries == Merged(old(entries), PageStep(loads, parses, root).0, domainTag, compareUrls)
    {
      var isOnPage := TryAccessPage(loads, TRIAL);
      if !isOnPage {
        return true;
      }
      var found, rows := ReadRows(parses);
      if !found {
        return true;
      }
      ends := AddRows(rows, root, domainTag, compareUrls);
    }

    /** `append_articles_to_scan(scan_list, placeholder, domain_tag, scanning_span,
        page)`: `pageLoads(p)` are the access attempts for page `p` and
        `pageParses(p)` what each parse of that page finds. hicr.py itself is the
        run with `compareUrls` false. */
    method AppendArticlesToScan(pageLoads: int -> nat -> Load, pageParses: int -> nat -> seq<Row>,
                                root: string, domainTag: string, span: int, page: int, compareUrls: bool)
      modifies this
      ensures entries == Merged(old(entries), Scanned(Steps(pageLoads, pageParses, root), page, page + span - 1), domainTag, compareUrls)
    {
      var maxPage := page + span - 1;
      var p := page;
      ghost var steps := Steps(pageLoads, pageParses, root);
      ghost var e0 := entries;
      while p <= maxPage
        invariant Filled(steps, e0, page, maxPage, domainTag, compareUrls) == Filled(steps, entries, p, maxPage, domainTag, compareUrls)
        decreases maxPage - p
      {
        var ends := ScanPage(pageLoads(p), pageParses(p), root, domainTag, compareUrls);
        if ends {
          break;
        }
        p := p + 1;
      }
      FilledMerged(steps, e0, page, maxPage, domainTag, compareUrls);
    }
  }

  /** The list after the page loop has run over pages `first .. last`, starting from
      `entries`. */
  function Filled(steps: int -> (seq<string>, bool), entries: seq<Entry>, first: int, last: int, domainTag: string, compareUrls: bool)
    : seq<Entry>
    decreases last - first + 1
  {
    if first > last then entries
    else
      var next := Merged(entries, steps(first).0, domainTag, compareUrls);
      if steps(first).1 then next else Filled(steps, next, first + 1, last, domainTag, compareUrls)
  }

  // ---------------------------------------------------------------------------
  // Lemmas

  /** Finished only on evidence: the button shows again at some look within the
      timeout, after the download was seen running at an earlier look (or before
      the state `n`, when `started`). */
  lemma {:induction false} FinishedAfterStart(readingAt: nat -> Reading, timeout: real, n: nat, started: bool, stalls: nat)
    requires Watch(readingAt, timeout, n, started, stalls)
    ensures exists j: nat :: (n <= j && (CHECK_INTERVAL * j) as real <= timeout && readingAt(j).visible
      && (started || exists i :: n <= i < j && !readingAt(i).visible))
    decreases timeout.Floor + CHECK_INTERVAL - CHECK_INTERVAL * n
  {
    var r := readingAt(n);
    if !r.visible {
      var s := if r.progress > 0.0 then 0 else stalls + 1;
      FinishedAfterStart(readingAt, timeout, n + 1, true, s);
      var j: nat :| n + 1 <= j && (CHECK_INTERVAL * j) as real <= timeout && readingAt(j).visible;
      assert n <= j && !readingAt(n).visible;
    } else if !started {
      FinishedAfterStart(readingAt, timeout, n + 1, started, stalls);
      var j: nat :| n + 1 <= j && (CHECK_INTERVAL * j) as real <= timeout && readingAt(j).visible
        && exists i :: n + 1 <= i < j && !readingAt(i).visible;
      assert n <= j;
    }
  }

  /** From the start, a finished download was seen running first. */
  lemma FinishedOnlyAfterRunning(readingAt: nat -> Reading, loadingSec: real, jitter: real)
    requires 1.0 <= jitter <= 1.2
    requires Watch(readingAt, StartTimeout(loadingSec, jitter), 0, false, 0)
    ensures exists i: nat, j: nat :: i < j && !readingAt(i).visible && readingAt(j).visible
  {
    FinishedAfterStart(readingAt, StartTimeout(loadingSec, jitter), 0, false, 0);
  }

  /** A download that never starts (the button stays visible) ends in false, once
      the timeout is passed. */
  lemma {:induction false} NeverStartedFails(readingAt: nat -> Reading, timeout: real, n: nat, stalls: nat)
    requires forall k: nat :: readingAt(k).visible
    ensures !Watch(readingAt, timeout, n, false, stalls)
    decreases timeout.Floor + CHECK_INTERVAL - CHECK_INTERVAL * n
  {
    if (CHECK_INTERVAL * n) as real <= timeout {
      NeverStartedFails(readingAt, timeout, n + 1, stalls);
    }
  }

  /** `m` stalled looks in a row, enough to push the stall count past three, end the
      watch with false, provided they fall within the timeout. */
  lemma {:induction false} StallsStop(readingAt: nat -> Reading, timeout: real, n: nat, started: bool, stalls: nat, m: nat)
    requires 1 <= m && stalls + m >= MAX_STALLS + 2
    requires (CHECK_INTERVAL * (n + m - 1)) as real <= timeout
    requires forall k :: n <= k < n + m ==> !readingAt(k).visible && readingAt(k).progress <= 0.0
    ensures !Watch(readingAt, timeout, n, started, stalls)
    decreases m
  {
    if stalls <= MAX_STALLS {
      StallsStop(readingAt, timeout, n + 1, true, stalls + 1, m - 1);
    }
  }

  /** Five stalled looks in a row at the start end the watch with false. */
  lemma FiveStallsStop(readingAt: nat -> Reading, loadingSec: real, jitter: real)
    requires 1.0 <= jitter <= 1.2
    requires forall k :: 0 <= k < 5 ==> !readingAt(k).visible && readingAt(k).progress <= 0.0
    ensures !Watch(readingAt, StartTimeout(loadingSec, jitter), 0, false, 0)
  {
    StallsStop(readingAt, StartTimeout(loadingSec, jitter), 0, false, 0, 5);
  }

  /** The bare folder name holds no '/', '|' or '_'. */
  lemma BaseNameFree(zipPath: string)
    ensures FreeOf(BaseName(zipPath), {'/', '|', '_'})
  {
    var a := LastPiece(FirstPiece(zipPath, ".zip"), "/");
    LastPieceSpec(FirstPiece(zipPath, ".zip"), "/");
    NotContainsFree(a, '/');
    var b := LastPiece(a, "|");
    FreeOfLastPiece(a, "|", {'/'});
    LastPieceSpec(a, "|");
    NotContainsFree(b, '|');
    assert FreeOf(b, {'/', '|'});
    var c := StripChars(b, {'_'});
    FreeOfStripChars(b, {'_'}, {'/', '|'});
    var d := LastPiece(c, "_");
    FreeOfLastPiece(c, "_", {'/', '|'});
    LastPieceSpec(c, "_");
    NotContainsFree(d, '_');
    assert FreeOf(d, {'/', '|', '_'});
    FreeOfStripChars(d, WHITESPACE, {'/', '|', '_'});
  }

  /** The folder name starts with the entry count as three digits (for fewer than a
      thousand entries) and '-', then the tag and '-' when there is one; the rest holds
      no '/' or '|', and no prohibited character but '_'. */
  lemma DirNameSpec(zipPath: string, prohibited: set<char>, tagName: string, fileCount: nat)
    requires fileCount < 1000
    ensures var d := DirName(zipPath, prohibited, tagName, fileCount);
      var head := if tagName != "" then tagName + "-" else "";
      && |d| >= 4 + |head|
      && AllDigits(d[..3]) && Value(d[..3]) == fileCount && d[3] == '-'
      && d[4..4 + |head|] == head
      && FreeOf(d[4 + |head|..], {'/', '|'} + (prohibited - {'_'}))
  {
    Pad3(fileCount);
    var rest := Sanitised(BaseName(zipPath), prohibited);
    SanitisedBaseFree(zipPath, prohibited);
    var d := DirName(zipPath, prohibited, tagName, fileCount);
    var head := if tagName != "" then tagName + "-" else "";
    var count := ZeroPad(fileCount, 3);
    assert d == count + "-" + head + rest;
    assert d[..3] == count;
    assert d[4..4 + |head|] == head;
    assert d[4 + |head|..] == rest;
  }

  /** Making prohibited characters '_' brings back no '/' or '|'. */
  lemma SanitisedBaseFree(zipPath: string, prohibited: set<char>)
    ensures FreeOf(Sanitised(BaseName(zipPath), prohibited), {'/', '|'} + (prohibited - {'_'}))
  {
    var base := BaseName(zipPath);
    BaseNameFree(zipPath);
    assert FreeOf(base, {'/', '|'});
    SanitisedFree(base, prohibited, {'/', '|'});
  }

  /** Distinct files are moved to distinct names. */
  lemma ErrNamesDistinct(destinationPath: string, a: string, b: string)
    requires a != b
    ensures destinationPath + "err-" + a != destinationPath + "err-" + b
  {
    var pa, pb := destinationPath + "err-" + a, destinationPath + "err-" + b;
    var n := |destinationPath + "err-"|;
    assert pa[n..] == a && pb[n..] == b;
  }

  /** As written, the duplicate check never finds anything: a string is never equal to
      a pair. */
  lemma AsWrittenAlwaysAppends(entries: seq<Entry>, url: string, domainTag: string)
    ensures AddAsWritten(entries, url, domainTag) == entries + [(url, domainTag)]
  {
    assert Str(url) !in Boxed(entries);
  }

  /** So the same article seen twice is listed twice. */
  lemma AsWrittenListsTwice(url: string, domainTag: string)
    ensures var once := AddAsWritten([], url, domainTag);
      !NoDuplicateUrls(AddAsWritten(once, url, domainTag))
  {
    AsWrittenAlwaysAppends([], url, domainTag);
    AsWrittenAlwaysAppends([(url, domainTag)], url, domainTag);
    var twice := AddAsWritten(AddAsWritten([], url, domainTag), url, domainTag);
    assert twice == [(url, domainTag), (url, domainTag)];
    assert twice[0].0 == twice[1].0;
  }

  /** As written, the scan appends every url it takes, in order, duplicates and all. */
  lemma {:induction false} MergedAsWritten(entries: seq<Entry>, urls: seq<string>, domainTag: string)
    ensures var r := Merged(entries, urls, domainTag, false);
      && |r| == |entries| + |urls| && r[..|entries|] == entries
      && forall k :: 0 <= k < |urls| ==> r[|entries| + k] == (urls[k], domainTag)
    decreases |urls|
  {
    if urls != [] {
      var init := urls[..|urls| - 1];
      MergedAsWritten(entries, init, domainTag);
      var m := Merged(entries, init, domainTag, false);
      AsWrittenAlwaysAppends(m, urls[|urls| - 1], domainTag);
      var r := m + [(urls[|urls| - 1], domainTag)];
      assert r[..|entries|] == m[..|entries|];
      forall k | 0 <= k < |urls| ensures r[|entries| + k] == (urls[k], domainTag) {
        if k < |init| {
          assert urls[k] == init[k];
        }
      }
    }
  }

  /** Appending with the url check keeps the list free of duplicates, keeps what was
      listed as a prefix, and lists every url afterwards. */
  lemma {:induction false} MergedSpec(entries: seq<Entry>, urls: seq<string>, domainTag: string)
    requires NoDuplicateUrls(entries)
    ensures var r := Merged(entries, urls, domainTag, true);
      && NoDuplicateUrls(r)
      && |entries| <= |r| && r[..|entries|] == entries
      && forall u :: u in urls ==> HasUrl(r, u)
    decreases |urls|
  {
    if urls != [] {
      var init := urls[..|urls| - 1];
      var url := urls[|urls| - 1];
      MergedSpec(entries, init, domainTag);
      var m := Merged(entries, init, domainTag, true);
      var r := AddEntry(m, url, domainTag);
      if !HasUrl(m, url) {
        assert r[..|m|] == m;
        assert r[|m|].0 == url;
        forall u | u in urls ensures HasUrl(r, u) {
          if u in init {
            var k :| 0 <= k < |m| && m[k].0 == u;
            assert r[k].0 == u;
          }
        }
      } else {
        assert forall u :: u in urls ==> u in init || u == url;
      }
      assert r[..|entries|] == m[..|entries|];
    }
  }

  /** Every entry the scan adds is a url it took, paired with the listing's tag. */
  lemma {:induction false} MergedTagged(entries: seq<Entry>, urls: seq<string>, domainTag: string, compareUrls: bool)
    ensures var r := Merged(entries, urls, domainTag, compareUrls);
      |entries| <= |r| && forall k :: |entries| <= k < |r| ==> r[k].0 in urls && r[k].1 == domainTag
    decreases |urls|
  {
    if urls != [] {
      var init := urls[..|urls| - 1];
      MergedTagged(entries, init, domainTag, compareUrls);
      var m := Merged(entries, init, domainTag, compareUrls);
      assert forall u :: u in init ==> u in urls;
    }
  }

  /** A row is taken exactly when it is two days old and its link has an `href` and
      text; the url is the root followed by the `href`. A row ends the scan exactly when
      it is three days old or more; a row whose stamp gives 0 or nothing is skipped. */
  lemma ClassifySpec(root: string, row: Row)
    ensures Classify(root, row).Take? <==> row.dayDiff == Some(2) && row.href.Some? && row.title.Some?
    ensures Classify(root, row).Take? ==> Classify(root, row).id == root + row.href.value
    ensures Classify(root, row) == Stop <==> row.dayDiff.Some? && row.dayDiff.value >= TOO_OLD_DAY
    ensures row.dayDiff == None || row.dayDiff == Some(0) ==> Classify(root, row) == Skip
  {
  }

  /** Appending two runs of urls is appending their concatenation. */
  lemma {:induction false} MergedAppend(entries: seq<Entry>, a: seq<string>, b: seq<string>, domainTag: string, compareUrls: bool)
    ensures Merged(entries, a + b, domainTag, compareUrls)
      == Merged(Merged(entries, a, domainTag, compareUrls), b, domainTag, compareUrls)
    decreases |b|
  {
    if b == [] {
      assert a + b == a;
    } else {
      MergedAppend(entries, a, b[..|b| - 1], domainTag, compareUrls);
      assert (a + b)[..|a + b| - 1] == a + b[..|b| - 1];
    }
  }

  /** Running the page loop is appending, with the duplicate check in force, every
      url the scan takes. */
  lemma {:induction false} FilledMerged(steps: int -> (seq<string>, bool), entries: seq<Entry>, first: int, last: int,
                                        domainTag: string, compareUrls: bool)
    ensures Filled(steps, entries, first, last, domainTag, compareUrls)
      == Merged(entries, Scanned(steps, first, last), domainTag, compareUrls)
    decreases last - first + 1
  {
    if first <= last && !steps(first).1 {
      var next := Merged(entries, steps(first).0, domainTag, compareUrls);
      FilledMerged(steps, next, first + 1, last, domainTag, compareUrls);
      MergedAppend(entries, steps(first).0, Scanned(steps, first + 1, last), domainTag, compareUrls);
    }
  }

  /** Every url the scan takes starts with the site root. */
  lemma {:induction false} ScannedUnderRoot(pageLoads: int -> nat -> Load, pageParses: int -> nat -> seq<Row>,
                                            root: string, first: int, last: int, url: string)
    requires url in Scanned(Steps(pageLoads, pageParses, root), first, last)
    ensures StartsWith(url, root)
    decreases last - first + 1
  {
    if url in Steps(pageLoads, pageParses, root)(first).0 {
      assert PageStep(pageLoads(first), pageParses(first), root).0 != [];
      var rows := PageRows(pageLoads(first), pageParses(first)).value;
      var here := Classified(rows, Classifier(root));
      CollectTaken(here, url);
      var i :| 0 <= i < |here| && here[i] == Take(url);
      assert Classify(root, rows[i]) == Take(url);
      assert url[..|root|] == root;
    } else {
      ScannedUnderRoot(pageLoads, pageParses, root, first + 1, last, url);
    }
  }
}
