/** dccr.py: the gallery scraper that downloads an article's attachments through a
    browser. Modelled here: the size of the download folder (`get_size`), the polling
    loop that decides when the download is over (`wait_for_downloading`), the local
    file name (`__get_local_name`), the rename rule for downloaded files and the row
    filter of `get_entries_to_scan`. */
module Dccr {
  import opened Strings
  import opened Optional
  import opened Common
  import opened Media
  import opened Listing

  // ---------------------------------------------------------------------------
  // get_size

  /** A file `os.walk` lists: whether it is a symbolic link, and its size in bytes. */
  datatype FileEntry = FileEntry(isLink: bool, size: nat)

  /** The bytes the non-link files of one directory count for. */
  function FilesSize(files: seq<FileEntry>): nat
    decreases |files|
  {
    if files == [] then 0
    else
      var f := files[|files| - 1];
      FilesSize(files[..|files| - 1]) + (if f.isLink then 0 else f.size)
  }

  /** The bytes of every non-link file of a walk (one file list per directory visited). */
  function WalkSize(walk: seq<seq<FileEntry>>): nat
    decreases |walk|
  {
    if walk == [] then 0 else WalkSize(walk[..|walk| - 1]) + FilesSize(walk[|walk| - 1])
  }

  /** `get_size(start_path)`, with the result of `os.walk` passed in. */
  method GetSize(walk: seq<seq<FileEntry>>) returns (total: nat)
    ensures total == WalkSize(walk)
  {
    total := 0;
    for i := 0 to |walk|
      invariant total == WalkSize(walk[..i])
    {
      var files := walk[i];
      for j := 0 to |files|
        invariant total == WalkSize(walk[..i]) + FilesSize(files[..j])
      {
        assert files[..j + 1][..j] == files[..j];
        if !files[j].isLink {
          total := total + files[j].size;
        }
      }
      assert files[..|files|] == files;
      assert walk[..i + 1][..i] == walk[..i];
    }
    assert walk[..|walk|] == walk;
  }

  // ---------------------------------------------------------------------------
  // wait_for_downloading

  /** Python's `int(x)`: truncation toward zero. */
  function Trunc(x: real): int {
    if x >= 0.0 then x.Floor else -((-x).Floor)
  }

  /** `max(10, int(loading_sec * 30))`: never below ten one-second checks. */
  function Timeout(loadingSec: real): (t: int)
    ensures t >= 10 && t >= Trunc(loadingSec * 30.0)
    ensures t == 10 || t == Trunc(loadingSec * 30.0)
  {
    var scaled := Trunc(loadingSec * 30.0);
    if scaled > 10 then scaled else 10
  }

  /** The inner loop `while get_size(...) == 0 and seconds < timeout`, starting at the
      `k`-th call of `get_size`: the index of the call that ends it and the seconds
      then. Only the calls before that one saw an empty folder, one second each. */
  function SkipZeros(walkAt: nat -> seq<seq<FileEntry>>, timeout: int, k: nat, seconds: int): (r: (nat, int))
    ensures r.0 >= k && r.1 - seconds == r.0 - k
    ensures seconds < timeout ==> r.1 <= timeout
    ensures seconds >= timeout ==> r == (k, seconds)
    decreases timeout - seconds
  {
    if WalkSize(walkAt(k)) == 0 && seconds < timeout then SkipZeros(walkAt, timeout, k + 1, seconds + 1)
    else (k, seconds)
  }

  /** The outer loop from the state (`k` calls of `get_size` made, `seconds`,
      `last_size`): true when the timeout is reached, false when a size sample equals
      the previous one and is not zero. */
  function Waiting(walkAt: nat -> seq<seq<FileEntry>>, timeout: int, k: nat, seconds: int, last: nat): bool
    decreases timeout - seconds
  {
    if seconds >= timeout then true
    else
      var (j, s) := SkipZeros(walkAt, timeout, k, seconds);
      var current := WalkSize(walkAt(j + 1));
      if 0 < last && last == current then false
      else Waiting(walkAt, timeout, j + 2, s + 1, current)
  }

  /** The inner loop of `wait_for_downloading`: checks the folder once a second while
      it is empty and the timeout is not reached. Returns the index of the call that
      ended the loop and the seconds counted. */
  method WaitForStart(walkAt: nat -> seq<seq<FileEntry>>, timeout: int, k0: nat, s0: int)
    returns (k: nat, seconds: int)
    ensures (k, seconds) == SkipZeros(walkAt, timeout, k0, s0)
  {
    k, seconds := k0, s0;
    var size := GetSize(walkAt(k));
    while size == 0 && seconds < timeout
      invariant SkipZeros(walkAt, timeout, k0, s0) == SkipZeros(walkAt, timeout, k, seconds)
      invariant size == WalkSize(walkAt(k))
      decreases timeout - seconds
    {
      seconds := seconds + 1;
      k := k + 1;
      size := GetSize(walkAt(k));
    }
  }

  /** `wait_for_downloading(temp_dir_path, loading_sec)`: `walkAt(k)` is what
      `os.walk` lists at the `k`-th call of `get_size`. True means the timeout was
      reached. */
  method WaitForDownloading(walkAt: nat -> seq<seq<FileEntry>>, loadingSec: real) returns (timedOut: bool)
    ensures timedOut == Waiting(walkAt, Timeout(loadingSec), 0, 0, 0)
  {
    timedOut := WaitUntilStable(walkAt, Timeout(loadingSec));
  }

  /** The outer loop of `wait_for_downloading`, for `timeout` seconds. */
  method WaitUntilStable(walkAt: nat -> seq<seq<FileEntry>>, timeout: int) returns (timedOut: bool)
    ensures timedOut == Waiting(walkAt, timeout, 0, 0, 0)
  {
    var seconds := 0;
    var lastSize := 0;
    var k := 0;
    while seconds < timeout
      invariant Waiting(walkAt, timeout, 0, 0, 0) == Waiting(walkAt, timeout, k, seconds, lastSize)
      decreases timeout - seconds
    {
      ghost var k0, s0, last0 := k, seconds, lastSize;
      k, seconds := WaitForStart(walkAt, timeout, k, seconds);
      var currentSize := GetSize(walkAt(k + 1));
      WaitingStep(walkAt, timeout, k0, s0, last0, k, seconds);
      k := k + 2;
      if 0 < lastSize && lastSize == currentSize {
        return false;
      }
      lastSize := currentSize;
      seconds := seconds + 1;
      assert Waiting(walkAt, timeout, k0, s0, last0) == Waiting(walkAt, timeout, k, seconds, lastSize);
    }
    return true;
  }

  /** One pass of the outer loop, as `Waiting` takes it: the inner loop ends at call
      `j` with `s` seconds, and call `j + 1` gives the new sample. */
  lemma WaitingStep(walkAt: nat -> seq<seq<FileEntry>>, timeout: int, k: nat, seconds: int, last: nat, j: nat, s: int)
    requires seconds < timeout && (j, s) == SkipZeros(walkAt, timeout, k, seconds)
    ensures var current := WalkSize(walkAt(j + 1));
      Waiting(walkAt, timeout, k, seconds, last)
        == if 0 < last && last == current then false else Waiting(walkAt, timeout, j + 2, s + 1, current)
  {
  }

  // ---------------------------------------------------------------------------
  // __get_local_name and the rename rule

  /** `url.split('no=')[-1]`: the document id. */
  function DocId(url: string): (id: string)
    ensures !Contains(id, "no=")
    ensures Contains(url, "no=") ==> url == SplitOnLastPattern(url, "no=").0 + "no=" + id
    ensures !Contains(url, "no=") ==> id == url
  {
    LastPieceSpec(url, "no=");
    LastPiece(url, "no=")
  }

  /** `__get_local_name(doc_title, url)`; a title that is `None` makes `strip` raise,
      and the name is then the document id alone. */
  function LocalName(docTitle: Option<string>, url: string): string {
    match docTitle
    case Some(title) => DashedTitle(title) + "-" + DocId(url)
    case None => DocId(url)
  }

  const DOMAIN_TAG: string := "-dc-"
  const LONG_NAME: nat := 50

  /** `s[:n]` */
  function Prefix(s: string, n: nat): string {
    if |s| <= n then s else s[..n]
  }

  /** The name `scan_article` gives a downloaded file, as written: a name of 50
      characters or more is split on its last '.', the part before it cut to 50
      characters. */
  function RenamedAsWritten(localName: string, fileName: string): string {
    if |fileName| < LONG_NAME then localName + DOMAIN_TAG + fileName
    else
      var (longName, extension) := SplitOnLastPattern(fileName, ".");
      localName + DOMAIN_TAG + Prefix(longName, LONG_NAME) + "." + extension
  }

  /** The rename rule with the case of a long name without any '.' handled: such a
      name is cut to 50 characters instead of being kept whole behind a new '.'. */
  function Renamed(localName: string, fileName: string): string {
    if |fileName| < LONG_NAME then localName + DOMAIN_TAG + fileName
    else if !Contains(fileName, ".") then localName + DOMAIN_TAG + Prefix(fileName, LONG_NAME)
    else
      var (longName, extension) := SplitOnLastPattern(fileName, ".");
      localName + DOMAIN_TAG + Prefix(longName, LONG_NAME) + "." + extension
  }

  // ---------------------------------------------------------------------------
  // get_entries_to_scan

  /** A listing row: the `td.gall_subject` text, the day difference of its
      `td.gall_date` stamp (`None` when the stamp does not parse), the title link's
      text and its `href`. */
  datatype Row = Row(subject: Option<string>, dayDiff: Option<int>, title: Option<string>, href: Option<string>)

  /** Notices and polls. */
  const IGNORED_ROW_TYPES: seq<string> := ["\U{ACF5}\U{C9C0}", "\U{C124}\U{BB38}"]
  const TOO_YOUNG_DAY: int := 0
  const TOO_OLD_DAY: int := 2

  /** What the row loop does with one row. A missing title is replaced by random
      digits, which never hold an ignored pattern (`Media.DigitTitlesKept`); a missing
      `href` raises and the row is skipped. */
  function Classify(row: Row): Verdict {
    if row.subject.Some? && row.subject.value in IGNORED_ROW_TYPES then Skip
    else if row.dayDiff.None? || row.dayDiff.value == 0 then Skip
    else if row.dayDiff.value <= TOO_YOUNG_DAY then Skip
    else if row.dayDiff.value >= TOO_OLD_DAY then Stop
    else if row.title.Some? && HoldsAny(row.title.value, TITLE_IGNORED_PATTERNS) then Skip
    else if row.href.None? then Skip
    else Take(FirstPiece(row.href.value, "&page"))
  }

  /** `get_entries_to_scan(placeholder, scanning_span, page)` with the rows of each
      listing page given by `pages`. */
  method GetEntriesToScan(pages: int -> seq<Row>, span: int, page: int) returns (toScan: seq<string>)
    ensures toScan == Collect(Verdicts(pages, Classify, page, page + span - 1))
  {
    var visited;
    toScan, visited := ScanPages(pages, Classify, page, span);
  }

  // ---------------------------------------------------------------------------
  // Lemmas

  lemma {:induction false} FilesSizeZero(files: seq<FileEntry>)
    ensures FilesSize(files) == 0 <==> forall j :: 0 <= j < |files| && !files[j].isLink ==> files[j].size == 0
    decreases |files|
  {
    if files != [] {
      var init := files[..|files| - 1];
      FilesSizeZero(init);
      assert forall j :: 0 <= j < |init| ==> init[j] == files[j];
    }
  }

  /** The folder size is zero exactly when every file that is not a link is empty
      (in particular when there are no files). */
  lemma {:induction false} WalkSizeZero(walk: seq<seq<FileEntry>>)
    ensures WalkSize(walk) == 0 <==>
      forall i, j :: 0 <= i < |walk| && 0 <= j < |walk[i]| && !walk[i][j].isLink ==> walk[i][j].size == 0
    decreases |walk|
  {
    if walk != [] {
      var init := walk[..|walk| - 1];
      WalkSizeZero(init);
      FilesSizeZero(walk[|walk| - 1]);
      assert forall i :: 0 <= i < |init| ==> init[i] == walk[i];
    }
  }

  /** A folder that stays empty never counts as finished: the loop runs into the
      timeout. */
  lemma {:induction false} EmptyFolderTimesOut(walkAt: nat -> seq<seq<FileEntry>>, timeout: int, k: nat, seconds: int)
    requires forall m: nat :: WalkSize(walkAt(m)) == 0
    ensures Waiting(walkAt, timeout, k, seconds, 0)
    decreases timeout - seconds
  {
    if seconds < timeout {
      var (j, s) := SkipZeros(walkAt, timeout, k, seconds);
      EmptyFolderTimesOut(walkAt, timeout, j + 2, s + 1);
    }
  }

  /** A folder whose size is the same positive number at every check is finished
      after two samples, whatever the loading time. */
  lemma SteadyFolderFinishes(walkAt: nat -> seq<seq<FileEntry>>, loadingSec: real, size: nat)
    requires size > 0 && forall m: nat :: WalkSize(walkAt(m)) == size
    ensures !Waiting(walkAt, Timeout(loadingSec), 0, 0, 0)
  {
    var timeout := Timeout(loadingSec);
    assert SkipZeros(walkAt, timeout, 0, 0) == (0, 0);
    assert SkipZeros(walkAt, timeout, 2, 1) == (2, 1);
  }

  /** The inner loop passes over only calls that saw an empty folder. */
  lemma {:induction false} SkippedAreEmpty(walkAt: nat -> seq<seq<FileEntry>>, timeout: int, k: nat, seconds: int)
    ensures forall m :: k <= m < SkipZeros(walkAt, timeout, k, seconds).0 ==> WalkSize(walkAt(m)) == 0
    decreases timeout - seconds
  {
    if WalkSize(walkAt(k)) == 0 && seconds < timeout {
      SkippedAreEmpty(walkAt, timeout, k + 1, seconds + 1);
    }
  }

  /** Finished (false) only on evidence: two size samples that are equal and positive,
      with nothing but empty-folder checks between them. */
  lemma {:induction false} FinishedHasWitness(walkAt: nat -> seq<seq<FileEntry>>, timeout: int, k: nat, seconds: int, last: nat)
    requires last == 0 || (k >= 1 && last == WalkSize(walkAt(k - 1)))
    requires !Waiting(walkAt, timeout, k, seconds, last)
    ensures exists i: nat, j: nat :: (i + 2 <= j && 0 < WalkSize(walkAt(i)) == WalkSize(walkAt(j))
      && forall m :: i < m < j - 1 ==> WalkSize(walkAt(m)) == 0)
    decreases timeout - seconds
  {
    var (j, s) := SkipZeros(walkAt, timeout, k, seconds);
    var current := WalkSize(walkAt(j + 1));
    SkippedAreEmpty(walkAt, timeout, k, seconds);
    if 0 < last && last == current {
      assert 0 < WalkSize(walkAt(k - 1)) == WalkSize(walkAt(j + 1));
      assert forall m :: k - 1 < m < j + 1 - 1 ==> WalkSize(walkAt(m)) == 0;
    } else {
      FinishedHasWitness(walkAt, timeout, j + 2, s + 1, current);
    }
  }

  /** The whole run finishes only on two equal positive samples. */
  lemma FinishedOnlyWhenStable(walkAt: nat -> seq<seq<FileEntry>>, loadingSec: real)
    requires !Waiting(walkAt, Timeout(loadingSec), 0, 0, 0)
    ensures exists i: nat, j: nat :: i + 2 <= j && 0 < WalkSize(walkAt(i)) == WalkSize(walkAt(j))
  {
    FinishedHasWitness(walkAt, Timeout(loadingSec), 0, 0, 0);
  }

  /** The local name is the title, stripped and with ' ', '.' and '/' made '-',
      then '-' and the document id after the last 'no='; without a title it is the
      id alone. */
  lemma LocalNameSpec(title: Option<string>, url: string)
    ensures title.None? ==> LocalName(title, url) == DocId(url)
    ensures title.Some? ==>
      var name := LocalName(title, url);
      var dashed := name[..|name| - |DocId(url)| - 1];
      && name == dashed + "-" + DocId(url)
      && |dashed| == |Strip(title.value)|
      && (forall k :: 0 <= k < |dashed| ==>
            dashed[k] == if Strip(title.value)[k] in {' ', '.', '/'} then '-' else Strip(title.value)[k])
      && FreeOf(dashed, {' ', '.', '/'})
  {
    if title.Some? {
      DashedFree(Strip(title.value));
      var name := LocalName(title, url);
      assert name[..|name| - |DocId(url)| - 1] == DashedTitle(title.value);
    }
  }

  /** As written, a long name without '.' is not cut: it is kept whole behind a new
      '.', one character longer than it was. */
  lemma LongNameWithoutDotGrows(localName: string, fileName: string)
    requires |fileName| >= LONG_NAME && !Contains(fileName, ".")
    ensures RenamedAsWritten(localName, fileName) == localName + DOMAIN_TAG + "." + fileName
  {
    SplitOnLastPatternWithout(fileName, ".");
    assert Prefix("", LONG_NAME) == "";
  }

  /** For example, fifty 'a's become '.aaa…a'. */
  lemma FiftyLettersGrow(localName: string)
    ensures var fileName := seq(50, _ => 'a');
      |RenamedAsWritten(localName, fileName)| == |localName + DOMAIN_TAG| + 51
  {
    var fileName := seq(50, _ => 'a');
    NotContainsChar(fileName, '.');
    LongNameWithoutDotGrows(localName, fileName);
  }

  /** Every renamed file starts with the local name and the domain tag; the rest is
      the name itself when short, and otherwise never longer than the name, at most
      50 characters before the extension, which is kept. */
  lemma RenamedSpec(localName: string, fileName: string)
    ensures var r := Renamed(localName, fileName);
      var prefix := localName + DOMAIN_TAG;
      StartsWith(r, prefix)
      && var rest := r[|prefix|..];
      && |rest| <= |fileName|
      && (|fileName| < LONG_NAME ==> rest == fileName)
      && (|fileName| >= LONG_NAME && !Contains(fileName, ".") ==> rest == fileName[..LONG_NAME])
      && (|fileName| >= LONG_NAME && Contains(fileName, ".") ==>
            var (longName, extension) := SplitOnLastPattern(fileName, ".");
            fileName == longName + "." + extension
            && rest == Prefix(longName, LONG_NAME) + "." + extension
            && !Contains(extension, "."))
  {
    SplitOnLastPatternSpec(fileName, ".");
    var r := Renamed(localName, fileName);
    var prefix := localName + DOMAIN_TAG;
    assert r[..|prefix|] == prefix;
  }

  /** A row is taken exactly when it is no notice or poll, is one day old, its title is
      not ignored and it has a link; the id is the link cut before '&page'. A row ends
      the scan exactly when it is no notice or poll and two days old or more. */
  lemma ClassifySpec(row: Row)
    ensures var ordinary := !(row.subject.Some? && row.subject.value in IGNORED_ROW_TYPES);
      && (Classify(row).Take? <==>
            ordinary && row.dayDiff == Some(1) && row.href.Some?
            && !(row.title.Some? && HoldsAny(row.title.value, TITLE_IGNORED_PATTERNS)))
      && (Classify(row) == Stop <==> ordinary && row.dayDiff.Some? && row.dayDiff.value >= TOO_OLD_DAY)
      && (Classify(row).Take? ==>
            var id := Classify(row).id;
            StartsWith(row.href.value, id) && !Contains(id, "&page"))
  {
    if row.href.Some? {
      FirstPieceCut(row.href.value, "&page");
    }
  }

  /** Every id the scan returns comes from a one-day-old row of the scanned pages,
      cut from that row's link. */
  lemma EntriesAreMature(pages: int -> seq<Row>, span: int, page: int, id: string)
    requires id in Collect(Verdicts(pages, Classify, page, page + span - 1))
    ensures exists p, i :: (page <= p <= page + span - 1 && 0 <= i < |pages(p)|
      && pages(p)[i].dayDiff == Some(1) && pages(p)[i].href.Some?
      && id == FirstPiece(pages(p)[i].href.value, "&page"))
  {
    CollectTaken(Verdicts(pages, Classify, page, page + span - 1), id);
    VerdictsMembers(pages, Classify, page, page + span - 1, Take(id));
    var p, i :| page <= p <= page + span - 1 && 0 <= i < |pages(p)| && Classify(pages(p)[i]) == Take(id);
    ClassifySpec(pages(p)[i]);
  }
}
