/** 52cr.py: the local name of an article, and `get_entries_to_scan`, which scans
    four listing pages for rows exactly one day old. Its day difference is
    common.py's `get_date_difference`, which answers `None` for a stamp that
    `strptime` rejects. The current time is the parameter `now` and the rows of
    listing page `p` are `pages(p)`. */
module Cr52 {
  import opened Strings
  import opened Optional
  import opened Format
  import opened Calendar
  import opened Common
  import opened Media
  import opened Listing

  /** `common.get_date_difference(tst_str)`: the days from the stamp's date to
      `now`; `None` where `strptime` raises (a stamp that is not text included). */
  function DateDifference(stamp: Option<string>, now: Date): (r: Option<int>)
    requires Valid(now)
    ensures r.Some? <==> stamp.Some? && ParseDate(stamp.value).Some?
  {
    match stamp
    case None => None
    case Some(tst) =>
      match ParseDate(tst)
      case None => None
      case Some(date) => Some(Ordinal(now) - Ordinal(date))
  }

  /** `url.split('srl=')[-1]`: the document id after the last 'srl='. */
  function DocId(url: string): (id: string)
    ensures !Contains(id, "srl=")
  {
    LastPieceSpec(url, "srl=");
    LastPiece(url, "srl=")
  }

  /** `__get_local_name(doc_title, url)`: the dashed title, '-' and the document id;
      a title that is `None` makes `strip` raise, and the id alone is the name. */
  function LocalName(docTitle: Option<string>, url: string): string {
    match docTitle
    case Some(title) => DashedTitle(title) + "-" + DocId(url)
    case None => DocId(url)
  }

  // ---------------------------------------------------------------------------
  // get_entries_to_scan

  const TOO_YOUNG_DAY: int := 0
  const TOO_OLD_DAY: int := 2
  /** How many listing pages one call looks at. */
  const PAGES_TO_SCAN: int := 4

  /** A listing row: the date text (`None` when the element holds no single
      string), the title text (`None` where reading it raises, and five random
      digits stand in) and the `href` of its link. */
  datatype Row = Row(stamp: Option<string>, title: Option<string>, href: string)

  /** `row.select_one('a.ab-link')['href'].split('=')[-1]`: the article number. */
  function ArticleNo(href: string): (no: string)
    ensures !Contains(no, "=")
  {
    LastPieceSpec(href, "=");
    LastPiece(href, "=")
  }

  /** What the row loop does with a row. A difference of 0 (or none) is falsy and
      the row is passed over; the random digits that replace an unreadable title
      hold no ignored pattern. */
  function Classify(row: Row, now: Date): Verdict
    requires Valid(now)
  {
    var dayDiff := DateDifference(row.stamp, now);
    if dayDiff.None? || dayDiff.value == 0 then Skip
    else if dayDiff.value <= TOO_YOUNG_DAY then Skip
    else if dayDiff.value >= TOO_OLD_DAY then Stop
    else if row.title.Some? && HoldsAny(Strip(row.title.value), TITLE_IGNORED_PATTERNS) then Skip
    else Take(ArticleNo(row.href))
  }

  /** `get_entries_to_scan(placeholder, page)` with the rows of each listing page
      given by `pages`: pages `page .. page + 3`. */
  method GetEntriesToScan(pages: int -> seq<Row>, page: int, now: Date) returns (toScan: seq<string>)
    requires Valid(now)
    ensures toScan == Collect(Verdicts(pages, row => Classify(row, now), page, page + PAGES_TO_SCAN - 1))
  {
    var visited;
    toScan, visited := ScanPages(pages, row => Classify(row, now), page, PAGES_TO_SCAN);
  }

  // ---------------------------------------------------------------------------
  // Lemmas

  /** A stamp as `strftime('%Y.%m.%d')` writes it gives the days from its date to
      `now`. */
  lemma DateDifferenceSpec(date: Date, now: Date)
    requires Valid(now) && Valid(date) && date.year >= 1000
    ensures DateDifference(Some(Show(date)), now) == Some(Ordinal(now) - Ordinal(date))
  {
    ParseShow(date);
  }

  /** The document id is what follows the URL's last 'srl='; without one it is the
      whole URL. */
  lemma DocIdSpec(url: string)
    ensures Contains(url, "srl=") ==> url == SplitOnLastPattern(url, "srl=").0 + "srl=" + DocId(url)
    ensures !Contains(url, "srl=") ==> DocId(url) == url
  {
    LastPieceSpec(url, "srl=");
  }

  /** The local name is the title, stripped and with ' ', '.' and '/' made '-',
      then '-' and the document id; without a title it is the id alone. */
  lemma LocalNameSpec(title: Option<string>, url: string)
    ensures title.None? ==> LocalName(title, url) == DocId(url)
    ensures title.Some? ==>
      var name := LocalName(title, url);
      var dashed := name[..|name| - |DocId(url)| - 1];
      && name == dashed + "-" + DocId(url)
      && |dashed| == |Strip(title.value)|
      && (forall k :: 0 <= k < |dashed| ==>
            dashed[k] == if Strip(title.value)[k] in {' ', '.', '/'} then '-' else Strip(title.value)[k])
      && FreeOf(dashed, {' ', '.', '/'})
  {
    if title.Some? {
      DashedFree(Strip(title.value));
      var name := LocalName(title, url);
      assert name[..|name| - |DocId(url)| - 1] == DashedTitle(title.value);
    }
  }

  /** A row is taken exactly when it is one day old and its title holds no ignored
      pattern, and the article number is cut from its link; a row ends the scan
      exactly when it is two days old or more. */
  lemma ClassifySpec(row: Row, now: Date)
    requires Valid(now)
    ensures var dayDiff := DateDifference(row.stamp, now);
      && (Classify(row, now).Take? <==>
            dayDiff == Some(1) && !(row.title.Some? && HoldsAny(Strip(row.title.value), TITLE_IGNORED_PATTERNS)))
      && (Classify(row, now) == Stop <==> dayDiff.Some? && dayDiff.value >= TOO_OLD_DAY)
      && (Classify(row, now).Take? ==> Classify(row, now).id == ArticleNo(row.href))
  {
  }

  /** Every number the scan returns comes from a one-day-old row of the four
      scanned pages. */
  lemma EntriesAreMature(pages: int -> seq<Row>, page: int, now: Date, id: string)
    requires Valid(now)
    requires id in Collect(Verdicts(pages, row => Classify(row, now), page, page + PAGES_TO_SCAN - 1))
    ensures exists p, i :: (page <= p < page + PAGES_TO_SCAN && 0 <= i < |pages(p)|
      && DateDifference(pages(p)[i].stamp, now) == Some(1) && id == ArticleNo(pages(p)[i].href))
  {
    var p, i := CollectedFrom(pages, row => Classify(row, now), page, page + PAGES_TO_SCAN - 1, id);
    ClassifySpec(pages(p)[i], now);
  }
}
