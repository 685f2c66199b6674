/** 12cr.py: the scraper for a board whose listing stamps usually leave out the
    year. Its own pieces are the year inference of `__get_date_difference`, the
    local name of `__get_local_name`, its copy of the source loop (see
    `SourceLoop`) and the row filter of `get_entries_to_scan`. The current time is
    the parameter `now`, the HEAD content-type of a URL the function `head`, and
    `ROOT_DOMAIN[0]` the parameter `rootDomain`. */
module Cr12 {
  import opened Strings
  import opened Optional
  import opened Format
  import opened Calendar
  import opened Common
  import opened Media
  import opened Listing
  import opened SourceLoop

  // ---------------------------------------------------------------------------
  // __get_date_difference

  /** `__get_date_difference(tst_str)`: the days from the stamp's date to `now`, or
      `None` for a missing or empty stamp and for one `strptime` rejects. A stamp of
      fewer than three '.'-pieces gets this year, or last year when that would put
      it in the future. */
  function DateDifference(stamp: Option<string>, now: Date): Option<int>
    requires Valid(now)
  {
    if stamp.None? || stamp.value == "" then None else Difference(Strip(stamp.value), now)
  }

  /** The `try` block, on the stripped stamp. */
  function Difference(tst: string, now: Date): Option<int>
    requires Valid(now)
  {
    if |Split(tst, ".")| < 3 then ShortDifference(tst, now) else FullDifference(tst, now)
  }

  /** `strptime(f'{year}.{tst}', '%Y.%m.%d')`: the year is a piece of its own, as
      `InYearParses` shows. */
  function InYear(year: nat, tst: string): Option<Date> {
    ParseFields([Digits(year)] + Split(tst, "."))
  }

  /** The difference for a stamp without its year. */
  function ShortDifference(tst: string, now: Date): Option<int>
    requires Valid(now)
  {
    match InYear(now.year, tst)
    case None => None
    case Some(date) =>
      if Ordinal(now) - Ordinal(date) < 0 then
        match InYear(now.year - 1, tst)
        case None => None
        case Some(earlier) => Some(Ordinal(now) - Ordinal(earlier))
      else Some(Ordinal(now) - Ordinal(date))
  }

  /** The difference for a stamp with its year. */
  function FullDifference(tst: string, now: Date): Option<int>
    requires Valid(now)
  {
    match ParseDate(tst)
    case None => None
    case Some(date) => Some(Ordinal(now) - Ordinal(date))
  }

  // ---------------------------------------------------------------------------
  // __get_local_name

  /** `url.split('id=')[-1].split('&')[0]`: the document id. */
  function DocId(url: string): (id: string)
    ensures !Contains(id, "&")
    ensures StartsWith(LastPiece(url, "id="), id)
  {
    FirstPieceCut(LastPiece(url, "id="), "&");
    FirstPiece(LastPiece(url, "id="), "&")
  }

  /** `__get_local_name(doc_title, url)`; a title that is `None` makes `strip` raise,
      and the name is then the document id alone. */
  function LocalName(docTitle: Option<string>, url: string): string {
    match docTitle
    case Some(title) => DashedTitle(title) + "-" + DocId(url)
    case None => DocId(url)
  }

  // ---------------------------------------------------------------------------
  // iterate_source_tags

  /** The body of the tag loop for tag number `i`, up to and including the download. */
  method VisitTag(tag: Tag, i: nat, attribute: Option<Attribute>, extension: string, downloads: seq<Download>,
                  fileName: string, rootDomain: string, head: string -> Option<string>)
    returns (attribute': Option<Attribute>, extension': string, downloads': seq<Download>, failed: bool)
    ensures LoopState(attribute', extension', downloads', failed)
      == Step(Cr12Site(rootDomain), LoopState(attribute, extension, downloads, false), i, tag, fileName, head, false)
  {
    attribute', extension', downloads', failed := attribute, extension, downloads, false;
    if tag.src.Some? {
      attribute' := Some(Src);
    } else if tag.href.Some? {
      attribute' := Some(Href);
    }
    if attribute'.Some? {
      var value := if attribute'.value == Src then tag.src else tag.href;
      if value.None? {
        failed := true;  // KeyError
        return;
      }
      var rawSource := CutType(value.value);
      var sourceUrl := if StartsWith(rawSource, "/data") then rootDomain + rawSource else rawSource;
      for k := 0 to |FILE_NAME_IGNORED_PATTERNS| {
        if Contains(sourceUrl, FILE_NAME_IGNORED_PATTERNS[k]) {
          continue;  // leaves the pattern loop only
        }
      }
      var header := head(sourceUrl);
      if header.Some? {
        var parts := ContentTypeParts(header.value);
        if parts.None? {
          failed := true;  // ValueError
          return;
        }
        var category, filetype := parts.value.0, parts.value.1;
        if filetype == "quicktime" {
          filetype := "mov";
        }
        if category == "text" {
          return;
        }
        if filetype in EXTENSION_CANDIDATES {
          extension' := filetype;
        } else {
          var chunk := UrlChunk(sourceUrl);
          if chunk in EXTENSION_CANDIDATES {
            extension' := chunk;
          }
        }
      }
      downloads' := downloads' + [Download(sourceUrl, fileName + "-" + ZeroPad(i, 3) + "." + extension')];
    }
  }

  /** `iterate_source_tags(source_tags, file_name, ...)`: the downloads it requests,
      and whether it ended by raising. */
  method IterateSourceTags(sourceTags: seq<Tag>, fileName: string, rootDomain: string, head: string -> Option<string>)
    returns (downloads: seq<Download>, failed: bool)
    ensures var run := Fold(Cr12Site(rootDomain), sourceTags, fileName, head, false);
      downloads == run.downloads && failed == run.failed
  {
    var attribute: Option<Attribute> := None;
    var extension := "tmp";
    downloads, failed := [], false;
    for i := 0 to |sourceTags|
      invariant Fold(Cr12Site(rootDomain), sourceTags[..i], fileName, head, false)
        == LoopState(attribute, extension, downloads, false)
    {
      assert sourceTags[..i + 1][..i] == sourceTags[..i];
      attribute, extension, downloads, failed :=
        VisitTag(sourceTags[i], i, attribute, extension, downloads, fileName, rootDomain, head);
      if failed {
        FoldFailed(Cr12Site(rootDomain), sourceTags, i + 1, fileName, head, false);
        return;
      }
    }
    assert sourceTags[..|sourceTags|] == sourceTags;
  }

  // ---------------------------------------------------------------------------
  // get_entries_to_scan

  /** A listing row: the `div.wr-date` text, the title text after the number span
      and the subject link's `href`. */
  datatype Row = Row(stamp: Option<string>, title: Option<string>, href: string)

  const TOO_YOUNG_DAY: int := 0
  const TOO_OLD_DAY: int := 2

  /** What the row loop does with one row. A missing title is replaced by random
      digits, which never hold an ignored pattern (`Media.DigitTitlesKept`). */
  function Classify(row: Row, now: Date): Verdict
    requires Valid(now)
  {
    var dayDiff := DateDifference(row.stamp, now);
    if dayDiff.None? || dayDiff.value == 0 then Skip
    else if dayDiff.value <= TOO_YOUNG_DAY then Skip
    else if dayDiff.value >= TOO_OLD_DAY then Stop
    else if row.title.Some? && HoldsAny(Strip(row.title.value), TITLE_IGNORED_PATTERNS) then Skip
    else Take(DocId(row.href))
  }

  /** `get_entries_to_scan(placeholder, scanning_span, page)` with the rows of each
      listing page given by `pages`. */
  method GetEntriesToScan(pages: int -> seq<Row>, span: int, page: int, now: Date) returns (toScan: seq<string>)
    requires Valid(now)
    ensures toScan == Collect(Verdicts(pages, row => Classify(row, now), page, page + span - 1))
  {
    var visited;
    toScan, visited := ScanPages(pages, row => Classify(row, now), page, span);
  }

  // ---------------------------------------------------------------------------
  // Lemmas

  /** Below year 10000 and from year 1000 on, `%Y` reads the four digits of the
      year, and the stamp must be exactly a month and a day of one or two digits. */
  lemma InYearSpec(year: nat, tst: string)
    requires 1000 <= year <= 9999
    ensures var parts := Split(tst, ".");
      if |parts| == 2 && Field(parts[0], 1, 2) && Field(parts[1], 1, 2) then
        var date := Date(year, Value(parts[0]), Value(parts[1]));
        InYear(year, tst) == if Valid(date) then Some(date) else None
      else InYear(year, tst) == None
  {
    DigitsAbove(year, 3, 1000);
    DigitsBelow(year, 4, 10000);
    ParseWithYear(year, tst);
    InYearParses(year, tst);
  }

  /** Prefixing the year and a '.' adds the year as the first piece of the split. */
  lemma InYearParses(year: nat, tst: string)
    ensures InYear(year, tst) == ParseDate(Digits(year) + "." + tst)
  {
    NoDotInDigits(Digits(year));
    SplitAroundChar(Digits(year), '.', tst);
  }

  /** A stamp of month and day gets this year when that date is not later in the
      year than today, and last year otherwise; so its difference is never
      negative, and it is `None` when the chosen year has no such day. */
  lemma ShortDifferenceSpec(tst: string, now: Date)
    requires Valid(now) && 1001 <= now.year
    ensures var parts := Split(tst, ".");
      var r := ShortDifference(tst, now);
      if |parts| == 2 && Field(parts[0], 1, 2) && Field(parts[1], 1, 2) then
        var thisYear := Date(now.year, Value(parts[0]), Value(parts[1]));
        var lastYear := Date(now.year - 1, Value(parts[0]), Value(parts[1]));
        if !Valid(thisYear) then r == None
        else if !LaterInYear(thisYear, now) then r == Some(Ordinal(now) - Ordinal(thisYear)) && r.value >= 0
        else if Valid(lastYear) then r == Some(Ordinal(now) - Ordinal(lastYear)) && r.value > 0
        else r == None
      else r == None
  {
    var parts := Split(tst, ".");
    InYearSpec(now.year, tst);
    InYearSpec(now.year - 1, tst);
    if |parts| == 2 && Field(parts[0], 1, 2) && Field(parts[1], 1, 2) {
      var thisYear := Date(now.year, Value(parts[0]), Value(parts[1]));
      var lastYear := Date(now.year - 1, Value(parts[0]), Value(parts[1]));
      if Valid(thisYear) {
        SameYearOrder(thisYear, now);
        if LaterInYear(thisYear, now) && Valid(lastYear) {
          EarlierYear(lastYear, now);
        }
      }
    }
  }

  /** A full stamp, as `strftime('%Y.%m.%d')` writes it, gives the days from its
      date to `now`. */
  lemma FullStampSpec(date: Date, now: Date)
    requires Valid(now) && Valid(date) && date.year >= 1000
    ensures DateDifference(Some(Show(date)), now) == Some(Ordinal(now) - Ordinal(date))
  {
    ShowStripped(date);
    ShowDifference(date, now);
    StrippedStamp(Show(date), now);
  }

  lemma ShowDifference(date: Date, now: Date)
    requires Valid(now) && Valid(date) && date.year >= 1000
    ensures Difference(Show(date), now) == Some(Ordinal(now) - Ordinal(date))
  {
    ShowSplit(date);
    ParseShow(date);
    FullStamp(Show(date), date, now);
  }

  /** A stamp that needs no stripping goes to the `try` block as it is. */
  lemma StrippedStamp(stamp: string, now: Date)
    requires Valid(now) && stamp != "" && Strip(stamp) == stamp
    ensures DateDifference(Some(stamp), now) == Difference(stamp, now)
  {
  }

  /** A stamp of three '.'-pieces is read with its year. */
  lemma FullStamp(stamp: string, date: Date, now: Date)
    requires Valid(now) && Valid(date)
    requires |Split(stamp, ".")| == 3 && ParseDate(stamp) == Some(date)
    ensures Difference(stamp, now) == Some(Ordinal(now) - Ordinal(date))
  {
  }

  /** What `strftime('%Y.%m.%d')` writes has three '.'-pieces ... */
  lemma ShowSplit(date: Date)
    requires Valid(date)
    ensures |Split(Show(date), ".")| == 3
  {
    ZeroPadSpec(date.month, 2);
    ZeroPadSpec(date.day, 2);
    SplitThree(Digits(date.year), ZeroPad(date.month, 2), ZeroPad(date.day, 2));
  }

  /** ... and is stripped already. */
  lemma ShowStripped(date: Date)
    requires Valid(date)
    ensures Show(date) != "" && Strip(Show(date)) == Show(date)
  {
    var s := Show(date);
    var y, m, d := Digits(date.year), ZeroPad(date.month, 2), ZeroPad(date.day, 2);
    ZeroPadSpec(date.day, 2);
    assert s == y + "." + m + "." + d;
    assert s[0] == y[0] && s[|s| - 1] == d[|d| - 1];
    StripDigitEnds(s);
  }

  /** A string that starts and ends with a digit is left alone by `strip`. */
  lemma StripDigitEnds(s: string)
    requires |s| > 0 && IsDigit(s[0]) && IsDigit(s[|s| - 1])
    ensures Strip(s) == s
  {
    DigitNotSpace(s[0]);
    DigitNotSpace(s[|s| - 1]);
    StripCharsKeeps(s, WHITESPACE);
  }

  /** The document id is the text after the last 'id=' up to the first '&' after
      it (the whole URL up to its first '&' when it holds no 'id='). */
  lemma DocIdSpec(url: string)
    ensures !Contains(DocId(url), "&")
    ensures Contains(url, "id=") ==>
      exists rest :: url == SplitOnLastPattern(url, "id=").0 + "id=" + DocId(url) + rest
                     && (rest == "" || StartsWith(rest, "&"))
    ensures !Contains(url, "id=") ==> StartsWith(url, DocId(url))
  {
    var last := LastPiece(url, "id=");
    var id := DocId(url);
    LastPieceSpec(url, "id=");
    FirstPieceCut(last, "&");
    var rest := last[|id|..];
    assert last == id + rest;
    if Contains(url, "id=") {
      assert url == SplitOnLastPattern(url, "id=").0 + "id=" + id + rest;
    }
  }

  /** The local name is the title, stripped and with ' ', '.' and '/' made '-',
      then '-' and the document id; without a title it is the id alone. */
  lemma LocalNameSpec(title: Option<string>, url: string)
    ensures title.None? ==> LocalName(title, url) == DocId(url)
    ensures title.Some? ==>
      var name := LocalName(title, url);
      var dashed := name[..|name| - |DocId(url)| - 1];
      && name == dashed + "-" + DocId(url)
      && |dashed| == |Strip(title.value)|
      && (forall k :: 0 <= k < |dashed| ==>
            dashed[k] == if Strip(title.value)[k] in {' ', '.', '/'} then '-' else Strip(title.value)[k])
      && FreeOf(dashed, {' ', '.', '/'})
  {
    if title.Some? {
      DashedFree(Strip(title.value));
      var name := LocalName(title, url);
      assert name[..|name| - |DocId(url)| - 1] == DashedTitle(title.value);
    }
  }

  /** A row is taken exactly when it is one day old and its title holds no ignored
      pattern, and the id is cut from its link; a row ends the scan exactly when it
      is two days old or more. */
  lemma ClassifySpec(row: Row, now: Date)
    requires Valid(now)
    ensures var dayDiff := DateDifference(row.stamp, now);
      && (Classify(row, now).Take? <==>
            dayDiff == Some(1) && !(row.title.Some? && HoldsAny(Strip(row.title.value), TITLE_IGNORED_PATTERNS)))
      && (Classify(row, now) == Stop <==> dayDiff.Some? && dayDiff.value >= TOO_OLD_DAY)
      && (Classify(row, now).Take? ==> Classify(row, now).id == DocId(row.href))
  {
    var dayDiff := DateDifference(row.stamp, now);
    if dayDiff.None? || dayDiff.value <= 0 {
      assert Classify(row, now) == Skip;
    } else if dayDiff.value >= TOO_OLD_DAY {
      assert Classify(row, now) == Stop;
    }
  }

  /** Every id the scan returns comes from a one-day-old row of the scanned pages. */
  lemma EntriesAreMature(pages: int -> seq<Row>, span: int, page: int, now: Date, id: string)
    requires Valid(now)
    requires id in Collect(Verdicts(pages, row => Classify(row, now), page, page + span - 1))
    ensures exists p, i :: (page <= p <= page + span - 1 && 0 <= i < |pages(p)|
      && DateDifference(pages(p)[i].stamp, now) == Some(1) && id == DocId(pages(p)[i].href))
  {
    var p, i := CollectedFrom(pages, row => Classify(row, now), page, page + span - 1, id);
    ClassifySpec(pages(p)[i], now);
  }
}
