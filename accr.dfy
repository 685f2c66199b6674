/** accr.py: a self-contained scraper (it carries its own copies of the helpers
    common.py offers). Its own pieces are the webp conversion after a download,
    the local name, the source loop (see `SourceLoop`) and `get_entries_to_scan`,
    which scans pages until page 100 or a page without a regular row and raises on
    a stamp or likes count it cannot read. The current time is the parameter `now`,
    the rows of listing page `p` are `pages(p)` and the HEAD content-type of a URL
    is `head(url)`. */
module Accr {
  import opened Strings
  import opened Optional
  import opened Format
  import opened Calendar
  import opened Common
  import opened Media
  import opened Listing
  import opened SourceLoop

  // ---------------------------------------------------------------------------
  // download and convert_webp_to_png

  /** The name a download ends up under: a local name ending in 'webp' is converted
      and stored as the part before its last '.' and '.png'
      (`__split_on_last_pattern(filename, '.')[0] + '.' + 'png'`). */
  function StoredName(localName: string): string {
    if EndsWith(localName, "webp") then RemoveExtension(localName) + ".png" else localName
  }

  // ---------------------------------------------------------------------------
  // __get_local_name and the short title of scan_article

  /** `url.split('/')[-1].split('?')[0]`: the article id at the end of the URL. */
  function ArticleId(url: string): (id: string)
    ensures !Contains(id, "?")
  {
    FirstPieceCut(LastPiece(url, "/"), "?");
    FirstPiece(LastPiece(url, "/"), "?")
  }

  /** `__get_local_name(doc_title, url)`: the title, stripped and with ' ', '.' and
      '/' made '-'; a title that is `None` makes `strip` raise, and the article id
      stands in. */
  function LocalName(docTitle: Option<string>, url: string): string {
    match docTitle
    case Some(title) => DashedTitle(title)
    case None => ArticleId(url)
  }

  /** `__split_on_last_pattern(doc_title_long, ' - ')[0].strip()`: the page title
      without the site name after its last ' - '. */
  function ShortTitle(long: string): string {
    Strip(SplitOnLastPattern(long, " - ").0)
  }

  // ---------------------------------------------------------------------------
  // iterate_source_tags

  /** The patterns accr.py lists; matching one only logs. */
  const FILE_NAME_IGNORED: seq<string> := FILE_NAME_IGNORED_PATTERNS[..2]

  /** The body of the tag loop for tag number `i`, up to and including the download. */
  method VisitTag(tag: Tag, i: nat, numbering: bool, attribute: Option<Attribute>, extension: string,
                  downloads: seq<Download>, fileName: string, head: string -> Option<string>)
    returns (attribute': Option<Attribute>, extension': string, downloads': seq<Download>, failed: bool)
    ensures LoopState(attribute', extension', downloads', failed)
      == Step(AccrSite(numbering), LoopState(attribute, extension, downloads, false), i, tag, fileName, head, false)
  {
    attribute', extension', downloads', failed := attribute, extension, downloads, false;
    if tag.src.Some? {
      attribute' := Some(Src);
    } else if tag.href.Some? {
      attribute' := Some(Href);
    }
    if attribute'.Some? {
      var value := if attribute'.value == Src then tag.src else tag.href;
      if value.None? {
        failed := true;  // KeyError
        return;
      }
      var rawSource := CutType(value.value);
      var sourceUrl := if StartsWith(rawSource, "//") then "https:" + rawSource else rawSource;
      for k := 0 to |FILE_NAME_IGNORED| {
        if Contains(sourceUrl, FILE_NAME_IGNORED[k]) {
          // logged only
        }
      }
      var header := head(sourceUrl);
      if header.Some? {
        var parts := ContentTypeParts(header.value);
        if parts.None? {
          failed := true;  // ValueError
          return;
        }
        var filetype := parts.value.1;
        if filetype == "quicktime" {
          filetype := "mov";
        }
        if filetype in EXTENSION_CANDIDATES {
          extension' := filetype;
        } else {
          var chunk := UrlChunk(sourceUrl);
          if chunk in EXTENSION_CANDIDATES {
            extension' := chunk;
          }
        }
      }
      var name := if numbering then fileName + "-" + ZeroPad(i, 2) + "." + extension' else fileName + "." + extension';
      downloads' := downloads' + [Download(sourceUrl, name)];
    }
  }

  /** `iterate_source_tags(source_tags, file_name, ...)`: the downloads it requests,
      and whether it ended by raising. Files are numbered when there are several
      tags. */
  method IterateSourceTags(sourceTags: seq<Tag>, fileName: string, head: string -> Option<string>)
    returns (downloads: seq<Download>, failed: bool)
    ensures var run := Fold(AccrSite(|sourceTags| > 1), sourceTags, fileName, head, false);
      downloads == run.downloads && failed == run.failed
  {
    var attribute: Option<Attribute> := None;
    var extension := "tmp";
    var isNumbering := |sourceTags| > 1;
    downloads, failed := [], false;
    for i := 0 to |sourceTags|
      invariant Fold(AccrSite(isNumbering), sourceTags[..i], fileName, head, false)
        == LoopState(attribute, extension, downloads, false)
    {
      assert sourceTags[..i + 1][..i] == sourceTags[..i];
      attribute, extension, downloads, failed :=
        VisitTag(sourceTags[i], i, isNumbering, attribute, extension, downloads, fileName, head);
      if failed {
        FoldFailed(AccrSite(isNumbering), sourceTags, i + 1, fileName, head, false);
        return;
      }
    }
    assert sourceTags[..|sourceTags|] == sourceTags;
  }

  // ---------------------------------------------------------------------------
  // get_entries_to_scan

  /** A listing row: the likes text, the time stamp, the title text and the row
      link's `href`. */
  datatype Row = Row(likes: string, stamp: string, title: string, href: string)

  const MAX_PAGE: int := 100
  /** The age, in days, from which a row ends the scan. */
  const TOO_OLD: int := 400

  /** `s.isspace()`: not empty, and whitespace throughout. */
  predicate IsSpace(s: string) {
    |s| > 0 && forall k :: 0 <= k < |s| ==> s[k] in WHITESPACE
  }

  /** A row whose likes are not blank; a page with none ends the scan. */
  predicate Regular(row: Row) {
    !IsSpace(row.likes)
  }

  /** `int(t)` on text with no whitespace around it: a decimal numeral with an
      optional sign; `None` where `int` raises. */
  function Numeral(t: string): (r: Option<int>)
    ensures r.Some? <==>
      |t| > 0 && var sign := if t[0] in {'-', '+'} then 1 else 0; |t| > sign && AllDigits(t[sign..])
  {
    if |t| == 0 then None
    else if t[0] in {'-', '+'} then
      if |t| > 1 && AllDigits(t[1..]) then
        var magnitude: int := Value(t[1..]);
        Some(if t[0] == '-' then -magnitude else magnitude)
      else None
    else if AllDigits(t) then Some(Value(t)) else None
  }

  /** `int(s)`: surrounding whitespace is dropped before the numeral is read. */
  function IntValue(s: string): (r: Option<int>)
    ensures r.Some? <==> var t := Strip(s);
      |t| > 0 && var sign := if t[0] in {'-', '+'} then 1 else 0; |t| > sign && AllDigits(t[sign..])
  {
    Numeral(Strip(s))
  }

  /** `str(n)`: decimal, with a '-' when negative. */
  function Shown(n: int): string {
    if n < 0 then "-" + Digits(-n) else Digits(n)
  }

  /** `int` reads back what `str` writes. */
  lemma NumeralShown(n: int)
    ensures Numeral(Shown(n)) == Some(n)
  {
    if n < 0 {
      var t := Shown(n);
      assert t[0] == '-' && t[1..] == Digits(-n);
      ValueDigits(-n);
    } else {
      var t := Digits(n);
      assert IsDigit(t[0]);
      ValueDigits(n);
    }
  }

  /** `int` reads back a number written in decimal, and whitespace around it
      changes nothing. */
  lemma IntValueShown(n: int, pad: string)
    requires forall k :: 0 <= k < |pad| ==> pad[k] in WHITESPACE
    ensures IntValue(pad + Shown(n) + pad) == Some(n)
  {
    var shown := Shown(n);
    var digits := Digits(if n < 0 then -n else n);
    DigitNotSpace(digits[|digits| - 1]);
    assert shown[|shown| - 1] == digits[|digits| - 1];
    if n >= 0 {
      DigitNotSpace(digits[0]);
    }
    StripPadded(pad, shown);
    NumeralShown(n);
  }

  /** `row['href'].split('?')[0].split('/')[-1]`: the article id of a row. */
  function RowId(href: string): (id: string)
    ensures !Contains(id, "/")
  {
    LastPieceSpec(FirstPiece(href, "?"), "/");
    LastPiece(FirstPiece(href, "?"), "/")
  }

  /** `__get_date_difference(tst_str)`: the days from the stamp's date to `now`;
      `None` where `strptime` raises. */
  function DayDifference(stamp: string, now: Date): Option<int>
    requires Valid(now)
  {
    match ParseDate(stamp)
    case None => None
    case Some(date) => Some(Ordinal(now) - Ordinal(date))
  }

  /** What the row loop does with a regular row after its age says it is worth
      scanning; `None` where `int(likes)` raises. */
  function Worth(row: Row, minLikes: int): Option<Verdict> {
    match IntValue(row.likes)
    case None => None
    case Some(likes) =>
      if likes < minLikes || HoldsAny(Strip(row.title), TITLE_IGNORED_PATTERNS) then Some(Skip)
      else Some(Take(RowId(row.href)))
  }

  /** What the row loop does with a regular row; `None` where it raises. A stamp
      with a ':' is a time of today, too young to scan. */
  function Classify(row: Row, minLikes: int, now: Date): Option<Verdict>
    requires Valid(now)
  {
    if Contains(row.stamp, ":") then Some(Skip)
    else
      match DayDifference(row.stamp, now)
      case None => None
      case Some(dayDiff) =>
        if dayDiff <= 0 then Some(Skip)
        else if dayDiff >= TOO_OLD then Some(Stop)
        else Worth(row, minLikes)
  }

  /** How the row loop of a page ended. */
  datatype End = Running | Stopped | Raised

  /** What the row loop of a page has gathered: the ids, whether it met a regular
      row, and how it ended. */
  datatype PageState = PageState(ids: seq<string>, regular: bool, end: End)

  function RowStep(st: PageState, row: Row, classify: Row -> Option<Verdict>): PageState {
    if st.end != Running || !Regular(row) then st
    else
      match classify(row)
      case None => st.(regular := true, end := Raised)
      case Some(Stop) => st.(regular := true, end := Stopped)
      case Some(Skip) => st.(regular := true)
      case Some(Take(id)) => st.(regular := true, ids := st.ids + [id])
  }

  /** The row loop over `rows`. */
  function PageFold(rows: seq<Row>, classify: Row -> Option<Verdict>): PageState
    decreases |rows|
  {
    if rows == [] then PageState([], false, Running)
    else RowStep(PageFold(rows[..|rows| - 1], classify), rows[|rows| - 1], classify)
  }

  /** The page loop from page `page` on, with `acc` collected so far: `None` where
      it raises, else the ids it returns. */
  function ScanPagesFrom(pages: int -> seq<Row>, classify: Row -> Option<Verdict>, page: int, acc: seq<string>): Option<seq<string>>
    decreases MAX_PAGE - page
  {
    if page >= MAX_PAGE then Some(acc)
    else
      var st := PageFold(pages(page), classify);
      match st.end
      case Raised => None
      case Stopped => Some(acc + st.ids)
      case Running =>
        if st.regular then ScanPagesFrom(pages, classify, page + 1, acc + st.ids) else Some(acc + st.ids)
  }

  /** The body of the row loop for one row: whether it is regular and, if so, what
      the loop does with it (`None` where it raises). */
  method InspectRow(row: Row, minLikes: int, now: Date) returns (regular: bool, verdict: Option<Verdict>)
    requires Valid(now)
    ensures regular == Regular(row)
    ensures regular ==> verdict == Classify(row, minLikes, now)
  {
    verdict := Some(Skip);
    regular := !IsSpace(row.likes);
    if !regular {
      return;
    }
    var isToScan := false;
    if Contains(row.stamp, ":") {
      // too young
    } else {
      var dayDiff := DayDifference(row.stamp, now);
      if dayDiff.None? {
        return regular, None;  // strptime raises
      }
      if dayDiff.value <= 0 {
        // too young
      } else if dayDiff.value >= TOO_OLD {
        return regular, Some(Stop);
      } else {
        isToScan := true;
      }
    }
    if isToScan {
      var likes := IntValue(row.likes);
      if likes.None? {
        return regular, None;  // int raises
      }
      if likes.value >= minLikes {
        var ignored := TitleIgnored(Strip(row.title));
        if !ignored {
          verdict := Some(Take(RowId(row.href)));
        }
      }
    }
  }

  /** The `for pattern in TITLE_IGNORED_PATTERNS` loop with its `break` and `else`:
      whether the title holds an ignored pattern. */
  method TitleIgnored(title: string) returns (ignored: bool)
    ensures ignored <==> HoldsAny(title, TITLE_IGNORED_PATTERNS)
  {
    ignored := false;
    for k := 0 to |TITLE_IGNORED_PATTERNS|
      invariant forall j :: 0 <= j < k ==> !Contains(title, TITLE_IGNORED_PATTERNS[j])
    {
      if Contains(title, TITLE_IGNORED_PATTERNS[k]) {
        return true;
      }
    }
  }

  /** `get_entries_to_scan(placeholder, min_likes, page)` with the rows of each
      listing page given by `pages`: the ids it returns, or `raised` where it
      raises. */
  method GetEntriesToScan(pages: int -> seq<Row>, minLikes: int, page: int, now: Date)
    returns (toScan: seq<string>, raised: bool)
    requires Valid(now)
    ensures raised <==> ScanPagesFrom(pages, row => Classify(row, minLikes, now), page, []).None?
    ensures !raised ==> toScan == ScanPagesFrom(pages, row => Classify(row, minLikes, now), page, []).value
  {
    ghost var classify := row => Classify(row, minLikes, now);
    toScan, raised := [], false;
    var p := page;
    var hasRegularRow := true;
    while p < MAX_PAGE && hasRegularRow
      invariant ScanPagesFrom(pages, classify, page, [])
        == if hasRegularRow then ScanPagesFrom(pages, classify, p, toScan) else Some(toScan)
      decreases MAX_PAGE - p, hasRegularRow
    {
      var st := ScanPage(pages(p), minLikes, now);
      toScan := toScan + st.ids;
      if st.end == Raised {
        return toScan, true;
      } else if st.end == Stopped {
        return toScan, false;
      }
      hasRegularRow := st.regular;
      p := p + 1;
    }
  }

  /** The row loop of `get_entries_to_scan` over the rows of one page: the ids it
      appends, whether it met a regular row, and whether it ran through, returned
      (at a row 400 days old or more) or raised. */
  method ScanPage(rows: seq<Row>, minLikes: int, now: Date) returns (st: PageState)
    requires Valid(now)
    ensures st == PageFold(rows, row => Classify(row, minLikes, now))
  {
    ghost var classify := row => Classify(row, minLikes, now);
    st := PageState([], false, Running);
    for i := 0 to |rows|
      invariant st == PageFold(rows[..i], classify) && st.end == Running
    {
      assert rows[..i + 1][..i] == rows[..i];
      var regular, verdict := InspectRow(rows[i], minLikes, now);
      if regular {
        st := st.(regular := true);
        match verdict {
          case None =>
            st := st.(end := Raised);
            PageFoldEnded(rows, i + 1, classify);
            return;
          case Some(Stop) =>
            st := st.(end := Stopped);
            PageFoldEnded(rows, i + 1, classify);
            return;
          case Some(Skip) =>
          case Some(Take(id)) =>
            st := st.(ids := st.ids + [id]);
        }
      }
    }
    assert rows[..|rows|] == rows;
  }

  // ---------------------------------------------------------------------------
  // Lemmas

  /** Once a page's row loop has ended, later rows change nothing. */
  lemma {:induction false} PageFoldEnded(rows: seq<Row>, i: nat, classify: Row -> Option<Verdict>)
    requires i <= |rows|
    requires PageFold(rows[..i], classify).end != Running
    ensures PageFold(rows, classify) == PageFold(rows[..i], classify)
    decreases |rows|
  {
    if i < |rows| {
      var n := |rows|;
      assert rows[..n - 1][..i] == rows[..i];
      PageFoldEnded(rows[..n - 1], i, classify);
    } else {
      assert rows[..i] == rows;
    }
  }

  /** Rows with blank likes are passed over without a look at their stamp. */
  lemma {:induction false} BlankPage(rows: seq<Row>, classify: Row -> Option<Verdict>)
    requires forall i :: 0 <= i < |rows| ==> !Regular(rows[i])
    ensures PageFold(rows, classify) == PageState([], false, Running)
    decreases |rows|
  {
    if rows != [] {
      BlankPage(rows[..|rows| - 1], classify);
    }
  }

  /** The page loop ends at page 100 and after a page without a regular row: such a
      page contributes nothing, and the pages after it are not requested. */
  lemma PageStop(pages: int -> seq<Row>, classify: Row -> Option<Verdict>, page: int, acc: seq<string>)
    ensures page >= MAX_PAGE ==> ScanPagesFrom(pages, classify, page, acc) == Some(acc)
    ensures (forall i :: 0 <= i < |pages(page)| ==> !Regular(pages(page)[i])) ==>
      ScanPagesFrom(pages, classify, page, acc) == Some(acc)
  {
    if forall i :: 0 <= i < |pages(page)| ==> !Regular(pages(page)[i]) {
      BlankPage(pages(page), classify);
      assert acc + [] == acc;
    }
  }

  /** Only pages `page .. 99` matter: listings that agree on them give the same scan. */
  lemma {:induction false} OnlyPagesBelowMax(pages: int -> seq<Row>, others: int -> seq<Row>, classify: Row -> Option<Verdict>,
                                             page: int, acc: seq<string>)
    requires forall q :: page <= q < MAX_PAGE ==> pages(q) == others(q)
    ensures ScanPagesFrom(pages, classify, page, acc) == ScanPagesFrom(others, classify, page, acc)
    decreases MAX_PAGE - page
  {
    if page < MAX_PAGE {
      var st := PageFold(pages(page), classify);
      OnlyPagesBelowMax(pages, others, classify, page + 1, acc + st.ids);
    }
  }

  /** A regular row is taken exactly when it is between one and 399 days old (and
      its stamp has no ':'), its likes read as at least `min_likes` and its stripped
      title holds no ignored pattern; it ends the scan exactly when it is 400 days
      old or more; the loop raises exactly on a stamp `strptime` rejects, or on
      likes `int` rejects in a row old enough to be worth scanning. */
  lemma ClassifySpec(row: Row, minLikes: int, now: Date)
    requires Valid(now)
    ensures var v := Classify(row, minLikes, now);
      var d := DayDifference(row.stamp, now);
      var worth := !Contains(row.stamp, ":") && d.Some? && 0 < d.value < TOO_OLD;
      && (v.Some? && v.value.Take? <==>
            worth && IntValue(row.likes).Some? && IntValue(row.likes).value >= minLikes
            && !HoldsAny(Strip(row.title), TITLE_IGNORED_PATTERNS))
      && (v.Some? && v.value.Take? ==> v.value.id == RowId(row.href))
      && (v == Some(Stop) <==> !Contains(row.stamp, ":") && d.Some? && d.value >= TOO_OLD)
      && (v.None? <==> !Contains(row.stamp, ":") && (d.None? || (worth && IntValue(row.likes).None?)))
  {
  }

  /** Every id of a page comes from a regular row of the page that is taken. */
  lemma {:induction false} PageIds(rows: seq<Row>, classify: Row -> Option<Verdict>, id: string)
    requires id in PageFold(rows, classify).ids
    ensures exists i :: 0 <= i < |rows| && Regular(rows[i]) && classify(rows[i]) == Some(Take(id))
    decreases |rows|
  {
    var n := |rows|;
    var init := rows[..n - 1];
    var st := PageFold(init, classify);
    RowStepIds(st, rows[n - 1], classify, id);
    if id in st.ids {
      PageIds(init, classify, id);
      var i :| 0 <= i < |init| && Regular(init[i]) && classify(init[i]) == Some(Take(id));
      assert rows[i] == init[i];
    }
  }

  /** A row adds at most its own id, and only when it is regular and taken. */
  lemma RowStepIds(st: PageState, row: Row, classify: Row -> Option<Verdict>, id: string)
    requires id in RowStep(st, row, classify).ids
    ensures id in st.ids || (Regular(row) && classify(row) == Some(Take(id)))
  {
    if st.end == Running && Regular(row) && id !in st.ids {
      var v := classify(row);
      assert v.Some? && v.value.Take? && id == v.value.id;
    }
  }

  /** Every id the scan returns was collected before, or comes from a regular row,
      taken, of a page from `page` up to 99. */
  lemma {:induction false} EntriesAreTaken(pages: int -> seq<Row>, classify: Row -> Option<Verdict>, page: int,
                                           acc: seq<string>, id: string)
    requires ScanPagesFrom(pages, classify, page, acc).Some?
    requires id in ScanPagesFrom(pages, classify, page, acc).value
    ensures id in acc ||
      exists p, i :: page <= p < MAX_PAGE && 0 <= i < |pages(p)|
        && Regular(pages(p)[i]) && classify(pages(p)[i]) == Some(Take(id))
    decreases MAX_PAGE - page
  {
    if page < MAX_PAGE {
      var st := PageFold(pages(page), classify);
      if st.end == Running && st.regular {
        EntriesAreTaken(pages, classify, page + 1, acc + st.ids, id);
      }
      if id !in acc && id in st.ids {
        PageIds(pages(page), classify, id);
      }
    }
  }

  /** A row the scan takes: regular, a stamp without ':' between one and 399 days
      old, likes that read as at least `min_likes` and a stripped title without an
      ignored pattern. */
  predicate Qualifies(row: Row, minLikes: int, now: Date)
    requires Valid(now)
  {
    var d := DayDifference(row.stamp, now);
    var likes := IntValue(row.likes);
    && Regular(row) && !Contains(row.stamp, ":") && d.Some? && 0 < d.value < TOO_OLD
    && likes.Some? && likes.value >= minLikes && !HoldsAny(Strip(row.title), TITLE_IGNORED_PATTERNS)
  }

  /** Every id `get_entries_to_scan` returns is cut from the link of a qualifying
      row of a page from `page` up to 99. */
  lemma ScannedRowsQualify(pages: int -> seq<Row>, minLikes: int, page: int, now: Date, id: string)
    requires Valid(now)
    requires ScanPagesFrom(pages, row => Classify(row, minLikes, now), page, []).Some?
    requires id in ScanPagesFrom(pages, row => Classify(row, minLikes, now), page, []).value
    ensures exists p, i ::
              page <= p < MAX_PAGE && 0 <= i < |pages(p)|
              && Qualifies(pages(p)[i], minLikes, now) && id == RowId(pages(p)[i].href)
  {
    var classify := row => Classify(row, minLikes, now);
    EntriesAreTaken(pages, classify, page, [], id);
    var p, i :| page <= p < MAX_PAGE && 0 <= i < |pages(p)| && Regular(pages(p)[i]) && classify(pages(p)[i]) == Some(Take(id));
    ClassifySpec(pages(p)[i], minLikes, now);
  }

  /** The local name is the dashed, stripped title; without a title it is the
      text after the URL's last '/' up to the first '?'. */
  lemma LocalNameSpec(title: Option<string>, url: string)
    ensures title.Some? ==>
      var name := LocalName(title, url);
      && |name| == |Strip(title.value)|
      && (forall k :: 0 <= k < |name| ==>
            name[k] == if Strip(title.value)[k] in {' ', '.', '/'} then '-' else Strip(title.value)[k])
      && FreeOf(name, {' ', '.', '/'})
    ensures title.None? ==>
      var id := LocalName(title, url);
      && !Contains(id, "/") && !Contains(id, "?")
      && StartsWith(LastPiece(url, "/"), id)
  {
    if title.Some? {
      DashedFree(Strip(title.value));
    } else {
      var last := LastPiece(url, "/");
      LastPieceSpec(url, "/");
      FirstPieceCut(last, "?");
      FirstPieceIsPrefix(last, "?");
      NotContainsPrefix(last, ArticleId(url), "/");
    }
  }

  /** A name that does not contain `p` has no prefix that contains it. */
  lemma {:induction false} NotContainsPrefix(s: string, q: string, p: string)
    requires !Contains(s, p) && |q| <= |s| && q == s[..|q|]
    ensures !Contains(q, p)
    decreases |q|
  {
    if |q| > 0 {
      assert !StartsWith(s, p);
      assert q[1..] == s[1..][..|q| - 1];
      NotContainsPrefix(s[1..], q[1..], p);
    }
  }

  /** When the page title holds ' - ', the short title is the stripped text before
      the last one, and the site name after it holds no ' - '; otherwise it is empty. */
  lemma ShortTitleSpec(long: string)
    ensures Contains(long, " - ") ==>
      exists lead, site :: long == lead + " - " + site && !Contains(site, " - ") && ShortTitle(long) == Strip(lead)
    ensures !Contains(long, " - ") ==> ShortTitle(long) == ""
  {
    if Contains(long, " - ") {
      SplitOnLastPatternSpec(long, " - ");
      var parts := SplitOnLastPattern(long, " - ");
      assert long == parts.0 + " - " + parts.1 && !Contains(parts.1, " - ");
    } else {
      SplitOnLastPatternWithout(long, " - ");
      assert TrimLeft("", WHITESPACE) == "";
    }
  }

  /** A file saved with a candidate extension keeps its name, except that a webp file
      is stored as a png of the same stem. */
  lemma StoredNameSpec(stem: string, extension: string)
    requires extension in EXTENSION_CANDIDATES
    ensures StoredName(stem + "." + extension)
      == if extension == "webp" then stem + ".png" else stem + "." + extension
  {
    var name := stem + "." + extension;
    assert |extension| == 3 || |extension| == 4;
    if extension == "webp" {
      assert name == stem + ['.'] + extension;
      assert forall k :: 0 <= k < |extension| ==> extension[k] != '.';
      SplitOnLastCharOf(stem, '.', extension);
    } else if |extension| == 4 {
      assert name[|name| - 4..] == extension;
    } else {
      assert name[|name| - 4..] == "." + extension;
      assert ("." + extension)[0] == '.';
    }
  }
}
