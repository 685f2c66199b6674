/** ggcr.py: the local name of an article, the board scan that picks the articles
    worth downloading, and the two source-tag loops of `scan_article` (images, and
    videos hosted on gfycat or redgifs). The HEAD content-type of a URL is the
    function `head`; a page of the board is the function `pages`. */
module Ggcr {
  import opened Strings
  import opened Optional
  import opened Format
  import opened Common
  import opened Media
  import opened Listing

  // ---------------------------------------------------------------------------
  // Local names

  /** `__get_local_name(article_title, url, likes)`: 'gg-<channel>-<likes>-<title>-<article>'
      from the last two '/'-pieces of the URL; `None` when the URL has no '/', where
      `url.split('/')[-2]` raises `IndexError`. */
  function LocalName(articleTitle: string, url: string, likes: int, prohibited: set<char>): Option<string> {
    var parts := Split(url, "/");
    var n := |parts|;
    if n < 2 then None
    else
      Some("gg-" + parts[n - 2] + "-" + PadInt(likes, 3) + "-" + Sanitised(Strip(articleTitle), prohibited)
        + "-" + parts[n - 1])
  }

  /** A URL with a '/' ends in '<channel>/<article>', neither of them holding a '/'. */
  lemma UrlTail(url: string)
    requires Contains(url, "/")
    ensures var parts := Split(url, "/");
      && |parts| >= 2
      && FreeOf(parts[|parts| - 2], {'/'}) && FreeOf(parts[|parts| - 1], {'/'})
      && EndsWith(url, parts[|parts| - 2] + "/" + parts[|parts| - 1])
  {
    var parts := Split(url, "/");
    var n := |parts|;
    SplitManyIff(url, "/");
    SplitPiecesFree(url, "/");
    NotContainsFree(parts[n - 2], '/');
    NotContainsFree(parts[n - 1], '/');
    JoinSplit(url, "/");
    JoinTail("/", parts);
  }

  /** A local name exists exactly when the URL holds a '/'; it is then the domain tag,
      the channel and article that end the URL, the likes padded to three digits and
      the stripped title with no prohibited character left but '_'. */
  lemma LocalNameSpec(articleTitle: string, url: string, likes: nat, prohibited: set<char>)
    ensures LocalName(articleTitle, url, likes, prohibited).Some? <==> Contains(url, "/")
    ensures Contains(url, "/") ==>
      exists channel, article ::
        && EndsWith(url, channel + "/" + article)
        && FreeOf(channel, {'/'}) && FreeOf(article, {'/'})
        && LocalName(articleTitle, url, likes, prohibited).value
           == "gg-" + channel + "-" + ZeroPad(likes, 3) + "-" + Sanitised(Strip(articleTitle), prohibited) + "-" + article
    ensures FreeOf(Sanitised(Strip(articleTitle), prohibited), prohibited - {'_'})
  {
    SplitManyIff(url, "/");
    SanitisedSpec(Strip(articleTitle), prohibited);
    if Contains(url, "/") {
      UrlTail(url);
      var parts := Split(url, "/");
      var n := |parts|;
      LocalNameParts(articleTitle, url, likes, prohibited, parts[n - 2], parts[n - 1]);
    }
  }

  lemma LocalNameParts(articleTitle: string, url: string, likes: int, prohibited: set<char>, channel: string, article: string)
    requires |Split(url, "/")| >= 2
    requires channel == Split(url, "/")[|Split(url, "/")| - 2] && article == Split(url, "/")[|Split(url, "/")| - 1]
    ensures LocalName(articleTitle, url, likes, prohibited)
      == Some("gg-" + channel + "-" + PadInt(likes, 3) + "-" + Sanitised(Strip(articleTitle), prohibited) + "-" + article)
  {
  }

  /** The likes part of a local name is three digits for fewer than 1000 likes, and
      names the likes uniquely. */
  lemma LikesPadded(likes: nat, other: nat)
    ensures likes < 1000 ==> |PadInt(likes, 3)| == 3
    ensures AllDigits(PadInt(likes, 3)) && Value(PadInt(likes, 3)) == likes
    ensures PadInt(likes, 3) == PadInt(other, 3) ==> likes == other
  {
    ZeroPadSpec(likes, 3);
    if likes < 1000 {
      Pad3(likes);
    }
    if PadInt(likes, 3) == PadInt(other, 3) {
      ZeroPadInjective(likes, other, 3);
    }
  }

  // ---------------------------------------------------------------------------
  // The board scan

  const TOO_YOUNG_DATE: int := 1
  const TOO_OLD_DATE: int := 3

  /** The `td.time` cell of a row that has a `title` attribute: that attribute, the
      cell's text, and the number of days between the text's date and now. */
  datatype Stamp = Stamp(title: string, text: Option<string>, dayDiff: int)

  /** One row of `table.bd_lst`: its time stamp (`None` when the row has no `td.time`
      or that cell no `title`), the number in `td.m_no > span` if there is one, the
      text of `td.cate`, the title text and the `href` of `td.title > a.hx`. */
  datatype Row = Row(stamp: Option<Stamp>, likes: Option<int>, cate: Option<string>, title: string, href: string)

  /** What a board asks of an article: the least likes, the categories and the
      title patterns to ignore. */
  datatype Board = Board(minLikes: int, extensions: seq<string>, ignored: seq<string>)

  /** A regular row whose time stamp holds a time of day: uploaded before today. */
  predicate Dated(row: Row) {
    row.stamp.Some? && Contains(row.stamp.value.title, ":")
  }

  function Likes(row: Row): int {
    if row.likes.Some? then row.likes.value else 0
  }

  /** A row of the right age whose likes, category and title qualify. */
  predicate Qualifies(b: Board, row: Row) {
    && Dated(row)
    && TOO_YOUNG_DATE < row.stamp.value.dayDiff < TOO_OLD_DATE
    && Likes(row) >= b.minLikes
    && row.cate.Some? && row.cate.value in b.extensions
    && !HoldsAny(Strip(row.title), b.ignored)
  }

  /** The article id of a row: its link after the last 'srl='. */
  function ArticleId(row: Row): string {
    LastPiece(row.href, "srl=")
  }

  /** The verdict on one row and the `prev_row_date` after it, given the one before. */
  function Step(b: Board, row: Row, prev: Option<string>): (Verdict, Option<string>) {
    if !Dated(row) then (Skip, prev)
    else if prev.None? then (Skip, row.stamp.value.text)
    else if row.stamp.value.dayDiff <= TOO_YOUNG_DATE then (Skip, prev)
    else if row.stamp.value.dayDiff >= TOO_OLD_DATE then (Stop, prev)
    else if Qualifies(b, row) then (Take(ArticleId(row)), prev)
    else (Skip, prev)
  }

  /** The verdicts on a run of rows, `prev_row_date` carried from row to row. */
  function RowVerdicts(b: Board, rows: seq<Row>, prev: Option<string>): (vs: seq<Verdict>)
    ensures |vs| == |rows|
    decreases |rows|
  {
    if rows == [] then []
    else
      var (v, next) := Step(b, rows[0], prev);
      [v] + RowVerdicts(b, rows[1..], next)
  }

  /** `prev_row_date` after a run of rows. */
  function PrevAfter(b: Board, rows: seq<Row>, prev: Option<string>): Option<string>
    decreases |rows|
  {
    if rows == [] then prev else PrevAfter(b, rows[1..], Step(b, rows[0], prev).1)
  }

  /** The rows of pages `first .. last`, page after page. */
  function AllRows(pages: int -> seq<Row>, first: int, last: int): seq<Row>
    decreases last - first + 1
  {
    if first > last then [] else pages(first) + AllRows(pages, first + 1, last)
  }

  /** What the page loop collects from pages `first .. last`: a page that holds a
      too-old row is the last one looked at; `prev_row_date` goes on to the next page. */
  function Scan(b: Board, pages: int -> seq<Row>, first: int, last: int, prev: Option<string>): seq<string>
    decreases last - first + 1
  {
    if first > last then []
    else
      var here := RowVerdicts(b, pages(first), prev);
      if Stop in here then Collect(here)
      else Collect(here) + Scan(b, pages, first + 1, last, PrevAfter(b, pages(first), prev))
  }

  /** The body of the row loop: the verdict on one row and the `prev_row_date`
      after it. */
  method ClassifyRow(b: Board, row: Row, prev: Option<string>) returns (verdict: Verdict, next: Option<string>)
    ensures (verdict, next) == Step(b, row, prev)
  {
    verdict, next := Skip, prev;
    match row.stamp {
      case None =>
      case Some(stamp) =>
        if !Contains(stamp.title, ":") {
        } else if prev.None? {
          next := stamp.text;
        } else if stamp.dayDiff <= TOO_YOUNG_DATE {
        } else if stamp.dayDiff >= TOO_OLD_DATE {
          verdict := Stop;
        } else {
          var likes := if row.likes.Some? then row.likes.value else 0;
          if likes >= b.minLikes && row.cate.Some? && row.cate.value in b.extensions {
            var title := Strip(row.title);
            var ignored := false;
            for j := 0 to |b.ignored|
              invariant ignored <==> exists k :: 0 <= k < j && Contains(title, b.ignored[k])
            {
              if Contains(title, b.ignored[j]) {
                ignored := true;
                break;
              }
            }
            if !ignored {
              verdict := Take(LastPiece(row.href, "srl="));
            }
          }
        }
    }
  }

  /** The row loop of one page. On a too-old row the whole scan ends, and
      `prev_row_date` no longer matters. */
  method ScanRows(b: Board, rows: seq<Row>, prev0: Option<string>)
    returns (ids: seq<string>, prev: Option<string>, stopped: bool)
    ensures ids == Collect(RowVerdicts(b, rows, prev0))
    ensures stopped <==> Stop in RowVerdicts(b, rows, prev0)
    ensures !stopped ==> prev == PrevAfter(b, rows, prev0)
  {
    ids, prev := [], prev0;
    for i := 0 to |rows|
      invariant Collect(RowVerdicts(b, rows, prev0)) == ids + Collect(RowVerdicts(b, rows[i..], prev))
      invariant Stop in RowVerdicts(b, rows, prev0) <==> Stop in RowVerdicts(b, rows[i..], prev)
      invariant PrevAfter(b, rows, prev0) == PrevAfter(b, rows[i..], prev)
    {
      var verdict, next := ClassifyRow(b, rows[i], prev);
      RowsFrom(b, rows, i, prev);
      if verdict == Stop {
        return ids, prev, true;
      }
      if verdict.Take? {
        ids := ids + [verdict.id];
      }
      prev := next;
    }
    stopped := false;
  }

  /** One step of the row loop over `rows[i..]`. */
  lemma RowsFrom(b: Board, rows: seq<Row>, i: int, prev: Option<string>)
    requires 0 <= i < |rows|
    ensures var (v, next) := Step(b, rows[i], prev);
      var here := RowVerdicts(b, rows[i..], prev);
      var rest := RowVerdicts(b, rows[i + 1..], next);
      && (v == Stop ==> Collect(here) == [] && Stop in here)
      && (v != Stop ==>
            && Collect(here) == (if v.Take? then [v.id] else []) + Collect(rest)
            && (Stop in here <==> Stop in rest)
            && PrevAfter(b, rows[i..], prev) == PrevAfter(b, rows[i + 1..], next))
  {
    assert rows[i..][0] == rows[i] && rows[i..][1..] == rows[i + 1..];
    var (v, next) := Step(b, rows[i], prev);
    var rest := RowVerdicts(b, rows[i + 1..], next);
    assert RowVerdicts(b, rows[i..], prev) == [v] + rest;
    assert ([v] + rest)[1..] == rest;
  }

  /** `get_entries_to_scan(placeholder, extensions, min_likes, scanning_span, page)`:
      the ids of the qualifying rows of pages `page .. page + span - 1`, up to the
      first too-old row. */
  method GetEntriesToScan(b: Board, pages: int -> seq<Row>, span: int, page: int) returns (toScan: seq<string>)
    ensures toScan == Collect(RowVerdicts(b, AllRows(pages, page, page + span - 1), None))
  {
    var maxPage := page + span - 1;
    var prev: Option<string> := None;
    toScan := [];
    var p := page;
    while p <= maxPage
      invariant Scan(b, pages, page, maxPage, None) == toScan + Scan(b, pages, p, maxPage, prev)
      decreases maxPage - p
    {
      var ids, next, stopped := ScanRows(b, pages(p), prev);
      ghost var before := toScan;
      toScan := toScan + ids;
      if stopped {
        break;
      }
      ghost var rest := Scan(b, pages, p + 1, maxPage, next);
      AppendAssoc(before, ids, rest);
      prev := next;
      p := p + 1;
    }
    ScanCollect(b, pages, page, maxPage, None);
  }

  lemma AppendAssoc(xs: seq<string>, ys: seq<string>, zs: seq<string>)
    ensures xs + (ys + zs) == (xs + ys) + zs
  {
  }

  /** Verdicts on two runs of rows are those of the first run and then those of the
      second, from the `prev_row_date` the first one leaves. */
  lemma {:induction false} RowVerdictsAppend(b: Board, xs: seq<Row>, ys: seq<Row>, prev: Option<string>)
    ensures RowVerdicts(b, xs + ys, prev) == RowVerdicts(b, xs, prev) + RowVerdicts(b, ys, PrevAfter(b, xs, prev))
    decreases |xs|
  {
    if xs == [] {
      assert xs + ys == ys;
    } else {
      assert (xs + ys)[0] == xs[0] && (xs + ys)[1..] == xs[1..] + ys;
      RowVerdictsAppend(b, xs[1..], ys, Step(b, xs[0], prev).1);
    }
  }

  /** Page by page scanning is collecting over all the rows of the range, with
      `prev_row_date` carried across page boundaries. */
  lemma {:induction false} ScanCollect(b: Board, pages: int -> seq<Row>, first: int, last: int, prev: Option<string>)
    ensures Scan(b, pages, first, last, prev) == Collect(RowVerdicts(b, AllRows(pages, first, last), prev))
    decreases last - first + 1
  {
    if first <= last {
      var here := RowVerdicts(b, pages(first), prev);
      var next := PrevAfter(b, pages(first), prev);
      var rest := RowVerdicts(b, AllRows(pages, first + 1, last), next);
      RowVerdictsAppend(b, pages(first), AllRows(pages, first + 1, last), prev);
      if Stop in here {
        CollectStopped(here, rest);
      } else {
        ScanCollect(b, pages, first + 1, last, next);
        CollectAppend(here, rest);
      }
    }
  }

  /** The first row with a time of day only records `prev_row_date`: it is never
      taken, and it never ends the scan. */
  lemma {:induction false} FirstDatedRowSkipped(b: Board, rows: seq<Row>, k: nat)
    requires k < |rows| && Dated(rows[k])
    requires forall j :: 0 <= j < k ==> !Dated(rows[j])
    ensures RowVerdicts(b, rows, None)[k] == Skip
    decreases k
  {
    if k > 0 {
      assert !Dated(rows[0]);
      FirstDatedRowSkipped(b, rows[1..], k - 1);
    }
  }

  /** A row is taken exactly when it qualifies and a dated row came before it; it
      ends the scan exactly when it is three days old or older and a dated row came
      before it. A taken id holds no 'srl='. */
  lemma StepSpec(b: Board, row: Row, prev: Option<string>, id: string)
    ensures Step(b, row, prev).0 == Take(id) <==> prev.Some? && Qualifies(b, row) && id == ArticleId(row)
    ensures Step(b, row, prev).0 == Stop <==> prev.Some? && Dated(row) && row.stamp.value.dayDiff >= TOO_OLD_DATE
    ensures !Contains(ArticleId(row), "srl=")
  {
    LastPieceSpec(row.href, "srl=");
  }

  /** A row whose verdict is `Take(id)` qualifies, and `id` is its article id. */
  lemma {:induction false} TakenRowQualifies(b: Board, rows: seq<Row>, prev: Option<string>, k: int, id: string)
    requires 0 <= k < |rows| && RowVerdicts(b, rows, prev)[k] == Take(id)
    ensures Qualifies(b, rows[k]) && id == ArticleId(rows[k])
    decreases k
  {
    var step := Step(b, rows[0], prev);
    assert RowVerdicts(b, rows, prev) == [step.0] + RowVerdicts(b, rows[1..], step.1);
    if k == 0 {
      StepSpec(b, rows[0], prev, id);
    } else {
      TakenRowQualifies(b, rows[1..], step.1, k - 1, id);
      assert rows[1..][k - 1] == rows[k];
    }
  }

  /** Every collected id is the id of a qualifying row. */
  lemma CollectedQualify(b: Board, rows: seq<Row>, prev: Option<string>, id: string)
    requires id in Collect(RowVerdicts(b, rows, prev))
    ensures exists k :: 0 <= k < |rows| && Qualifies(b, rows[k]) && id == ArticleId(rows[k])
  {
    var vs := RowVerdicts(b, rows, prev);
    CollectTaken(vs, id);
    var k :| 0 <= k < |vs| && vs[k] == Take(id);
    TakenRowQualifies(b, rows, prev, k, id);
  }

  // ---------------------------------------------------------------------------
  // Image sources

  /** The extensions ggcr.py accepts ('mov' is not among them). */
  const CANDIDATES: seq<string> := ["jpg", "jpeg", "png", "gif", "jfif", "mp4", "webp", "webm"]

  /** The extension for an image URL: its last '.'-chunk if that is a candidate, else
      the file type of the HEAD content-type (candidate or not), else the extension
      carried over. `None` when the content-type does not split into exactly two on
      '/', where the unpacking raises `ValueError`. */
  function ImageExtension(extension: string, url: string, header: Option<string>): Option<string> {
    var chunk := UrlChunk(url);
    if chunk in CANDIDATES then Some(chunk)
    else match header
      case None => Some(extension)
      case Some(h) =>
        match ContentTypeParts(h)
        case None => None
        case Some((_, filetype)) => Some(filetype)
  }

  /** What the image loop carries along: the extension last used (first 'tmp'), the
      downloads requested, whether a tag had a `src`, and whether the loop raised. */
  datatype ImageState = ImageState(extension: string, downloads: seq<Download>, hasSource: bool, failed: bool)

  /** One pass of the image loop, over tag number `i`. */
  function ImageStep(st: ImageState, i: nat, tag: Tag, fileName: string, head: string -> Option<string>): ImageState {
    if st.failed || tag.src.None? then st
    else
      var url := tag.src.value;
      match ImageExtension(st.extension, url, head(url))
      case None => st.(hasSource := true, failed := true)
      case Some(e) => ImageState(e, st.downloads + [Download(url, fileName + "-" + ZeroPad(i, 2) + "." + e)], true, false)
  }

  /** The image loop over all of `tags`. */
  function ImageRun(tags: seq<Tag>, fileName: string, head: string -> Option<string>): ImageState
    decreases |tags|
  {
    if tags == [] then ImageState("tmp", [], false, false)
    else
      var n := |tags|;
      ImageStep(ImageRun(tags[..n - 1], fileName, head), n - 1, tags[n - 1], fileName, head)
  }

  /** The `src` of every tag that has one, in order. */
  function Sources(tags: seq<Tag>): seq<string>
    decreases |tags|
  {
    if tags == [] then []
    else
      var n := |tags|;
      Sources(tags[..n - 1]) + (if tags[n - 1].src.Some? then [tags[n - 1].src.value] else [])
  }

  /** `iterate_img_source_tags(source_tags, file_name)`: every tag with a `src` is
      downloaded as '<file name>-<index>.<extension>'; a malformed content-type
      raises and ends the loop (`failed`). */
  method IterateImgSourceTags(tags: seq<Tag>, fileName: string, head: string -> Option<string>)
    returns (hasSource: bool, downloads: seq<Download>, failed: bool)
    ensures var run := ImageRun(tags, fileName, head);
      hasSource == run.hasSource && downloads == run.downloads && failed == run.failed
  {
    hasSource, downloads, failed := false, [], false;
    var extension := "tmp";
    for i := 0 to |tags|
      invariant ImageRun(tags[..i], fileName, head) == ImageState(extension, downloads, hasSource, false)
    {
      assert tags[..i + 1][..i] == tags[..i];
      var tag := tags[i];
      if tag.src.Some? {
        if !hasSource {
          hasSource := true;
        }
        var url := tag.src.value;
        var chunk := UrlChunk(url);
        if chunk in CANDIDATES {
          extension := chunk;
        } else {
          var header := head(url);
          if header.Some? {
            var parts := ContentTypeParts(header.value);
            if parts.None? {
              failed := true;
              ImageRunFailed(tags, i + 1, fileName, head);
              return;
            }
            extension := parts.value.1;
          }
        }
        downloads := downloads + [Download(url, fileName + "-" + ZeroPad(i, 2) + "." + extension)];
      }
    }
    assert tags[..|tags|] == tags;
  }

  /** Once the image loop has raised, nothing changes any more. */
  lemma {:induction false} ImageRunFailed(tags: seq<Tag>, i: nat, fileName: string, head: string -> Option<string>)
    requires i <= |tags| && ImageRun(tags[..i], fileName, head).failed
    ensures ImageRun(tags, fileName, head) == ImageRun(tags[..i], fileName, head)
    decreases |tags| - i
  {
    if i < |tags| {
      assert tags[..i + 1][..i] == tags[..i];
      ImageRunFailed(tags, i + 1, fileName, head);
    } else {
      assert tags[..i] == tags;
    }
  }

  /** `iterate_img_source_tags` says there was a source exactly when some tag has a
      `src`; the loop only raises on such a tag. */
  lemma {:induction false} ImageHasSource(tags: seq<Tag>, fileName: string, head: string -> Option<string>)
    ensures ImageRun(tags, fileName, head).failed ==> ImageRun(tags, fileName, head).hasSource
    ensures ImageRun(tags, fileName, head).hasSource <==> exists k :: 0 <= k < |tags| && tags[k].src.Some?
    decreases |tags|
  {
    if tags != [] {
      var n := |tags|;
      var init := tags[..n - 1];
      ImageHasSource(init, fileName, head);
      assert forall k :: 0 <= k < n - 1 ==> init[k] == tags[k];
      if exists k :: 0 <= k < n && tags[k].src.Some? {
        var k :| 0 <= k < n && tags[k].src.Some?;
        if k < n - 1 {
          assert init[k].src.Some?;
        }
      }
    }
  }

  /** An image loop that did not raise downloads every `src`, in order, each under
      the file name, a two-digit tag index and an extension. */
  lemma {:induction false} ImageDownloads(tags: seq<Tag>, fileName: string, head: string -> Option<string>)
    requires !ImageRun(tags, fileName, head).failed
    ensures Urls(ImageRun(tags, fileName, head).downloads) == Sources(tags)
    ensures forall d :: d in ImageRun(tags, fileName, head).downloads ==>
      exists i: nat, e :: i < |tags| && d.name == fileName + "-" + ZeroPad(i, 2) + "." + e
    decreases |tags|
  {
    if tags != [] {
      var n := |tags|;
      var before := ImageRun(tags[..n - 1], fileName, head);
      assert !before.failed;
      ImageDownloads(tags[..n - 1], fileName, head);
      var after := ImageRun(tags, fileName, head);
      if tags[n - 1].src.Some? {
        var d := after.downloads[|after.downloads| - 1];
        assert after.downloads == before.downloads + [d];
        UrlsAppend(before.downloads, [d]);
      } else {
        assert after == before;
      }
    }
  }

  // ---------------------------------------------------------------------------
  // Video sources

  const VIDEO_SOURCE_CANDIDATES: seq<string> := ["gfycat", "redgifs"]

  /** `src` once for every candidate host it names. */
  function Copies(src: string, candidates: seq<string>): seq<string>
    decreases |candidates|
  {
    if candidates == [] then []
    else
      var n := |candidates|;
      Copies(src, candidates[..n - 1]) + (if Contains(src, candidates[n - 1]) then [src] else [])
  }

  /** The `src` of each nested source that has one. */
  function Present(sources: seq<Option<string>>): seq<string>
    decreases |sources|
  {
    if sources == [] then []
    else
      var n := |sources|;
      Present(sources[..n - 1]) + (if sources[n - 1].Some? then [sources[n - 1].value] else [])
  }

  /** The raw sources one tag adds: its `src` once per candidate host it names,
      else the `src` of each nested `<source>`. */
  function TagVideoSources(tag: Tag): seq<string> {
    if tag.src.Some? then Copies(tag.src.value, VIDEO_SOURCE_CANDIDATES) else Present(tag.sources)
  }

  /** A raw source whose last '.'-chunk is a candidate of at most four characters is
      the file itself. */
  predicate Direct(raw: string) {
    var chunk := UrlChunk(raw);
    |chunk| <= 4 && chunk in CANDIDATES
  }

  /** The URL a raw video source is downloaded from: itself when direct, the gfycat
      thumbnail when it names gfycat, else itself. */
  function SourceUrl(raw: string): string {
    if Direct(raw) then raw
    else if Contains(raw, VIDEO_SOURCE_CANDIDATES[0]) then "https://thumbs.gfycat.com/" + LastPiece(raw, "/") + "-mobile.mp4"
    else raw
  }

  /** The extension after downloading a raw source: its chunk when direct, else the
      one carried over. */
  function NextVideoExtension(raw: string, extension: string): string {
    if Direct(raw) then UrlChunk(raw) else extension
  }

  /** The video file name: numbered by tag only when there are several tags. */
  function VideoName(fileName: string, numbering: bool, i: nat, extension: string): string {
    if numbering then fileName + "-" + ZeroPad(i, 2) + "." + extension else fileName + "." + extension
  }

  /** Downloading a run of raw sources for tag number `i`: the extension after them
      and the downloads requested. */
  function DownloadRaw(raws: seq<string>, extension: string, fileName: string, numbering: bool, i: nat): (string, seq<Download>)
    decreases |raws|
  {
    if raws == [] then (extension, [])
    else
      var n := |raws|;
      var (e, ds) := DownloadRaw(raws[..n - 1], extension, fileName, numbering, i);
      var e2 := NextVideoExtension(raws[n - 1], e);
      (e2, ds + [Download(SourceUrl(raws[n - 1]), VideoName(fileName, numbering, i, e2))])
  }

  /** What the video loop carries along: the extension last used (first 'mp4'), the
      raw sources gathered, the downloads requested and whether a source was seen. */
  datatype VideoState = VideoState(extension: string, raw: seq<string>, downloads: seq<Download>, hasSource: bool)

  /** One pass of the video loop over tag number `i`. As written (`perTag` false)
      the raw sources of every earlier tag are kept and downloaded again; with
      `perTag` only this tag's sources are. */
  function VideoStep(st: VideoState, i: nat, tag: Tag, fileName: string, numbering: bool, perTag: bool): VideoState {
    var found := TagVideoSources(tag);
    var raw := (if perTag then [] else st.raw) + found;
    if st.hasSource || found != [] then
      var (e, ds) := DownloadRaw(raw, st.extension, fileName, numbering, i);
      VideoState(e, raw, st.downloads + ds, true)
    else VideoState(st.extension, raw, st.downloads, false)
  }

  function VideoFold(tags: seq<Tag>, fileName: string, numbering: bool, perTag: bool): VideoState
    decreases |tags|
  {
    if tags == [] then VideoState("mp4", [], [], false)
    else
      var n := |tags|;
      VideoStep(VideoFold(tags[..n - 1], fileName, numbering, perTag), n - 1, tags[n - 1], fileName, numbering, perTag)
  }

  /** The video loop over all of `tags`; names are numbered when there is more than one tag. */
  function VideoRun(tags: seq<Tag>, fileName: string, perTag: bool): VideoState {
    VideoFold(tags, fileName, |tags| > 1, perTag)
  }

  /** The source-gathering part of the video loop for one tag. */
  method GatherVideoSources(tag: Tag) returns (found: seq<string>)
    ensures found == TagVideoSources(tag)
  {
    found := [];
    if tag.src.Some? {
      var src := tag.src.value;
      for c := 0 to |VIDEO_SOURCE_CANDIDATES|
        invariant found == Copies(src, VIDEO_SOURCE_CANDIDATES[..c])
      {
        assert VIDEO_SOURCE_CANDIDATES[..c + 1][..c] == VIDEO_SOURCE_CANDIDATES[..c];
        if Contains(src, VIDEO_SOURCE_CANDIDATES[c]) {
          found := found + [src];
        }
      }
      assert VIDEO_SOURCE_CANDIDATES[..|VIDEO_SOURCE_CANDIDATES|] == VIDEO_SOURCE_CANDIDATES;
    } else if |tag.sources| > 0 {
      for k := 0 to |tag.sources|
        invariant found == Present(tag.sources[..k])
      {
        assert tag.sources[..k + 1][..k] == tag.sources[..k];
        if tag.sources[k].Some? {
          found := found + [tag.sources[k].value];
        }
      }
      assert tag.sources[..|tag.sources|] == tag.sources;
    }
  }

  /** The download part of the video loop for tag number `i`. */
  method DownloadRawSources(raws: seq<string>, extension0: string, fileName: string, numbering: bool, i: nat)
    returns (extension: string, downloads: seq<Download>)
    ensures (extension, downloads) == DownloadRaw(raws, extension0, fileName, numbering, i)
  {
    extension, downloads := extension0, [];
    for k := 0 to |raws|
      invariant (extension, downloads) == DownloadRaw(raws[..k], extension0, fileName, numbering, i)
    {
      assert raws[..k + 1][..k] == raws[..k];
      var raw := raws[k];
      var chunk := UrlChunk(raw);
      var url;
      if |chunk| <= 4 && chunk in CANDIDATES {
        url := raw;
        extension := chunk;
      } else if Contains(raw, VIDEO_SOURCE_CANDIDATES[0]) {
        url := "https://thumbs.gfycat.com/" + LastPiece(raw, "/") + "-mobile.mp4";
      } else {
        url := raw;
      }
      if numbering {
        downloads := downloads + [Download(url, fileName + "-" + ZeroPad(i, 2) + "." + extension)];
      } else {
        downloads := downloads + [Download(url, fileName + "." + extension)];
      }
    }
    assert raws[..|raws|] == raws;
  }

  /** `iterate_video_source_tags(source_tags, file_name)`, as written: the raw sources
      gathered so far are downloaded again for every tag once one was found. */
  method IterateVideoSourceTags(tags: seq<Tag>, fileName: string) returns (hasSource: bool, downloads: seq<Download>)
    ensures hasSource == VideoRun(tags, fileName, false).hasSource
    ensures downloads == VideoRun(tags, fileName, false).downloads
  {
    hasSource, downloads := false, [];
    var extension := "mp4";
    var rawSources: seq<string> := [];
    var numbering := |tags| > 1;
    for i := 0 to |tags|
      invariant VideoFold(tags[..i], fileName, numbering, false) == VideoState(extension, rawSources, downloads, hasSource)
    {
      assert tags[..i + 1][..i] == tags[..i];
      var found := GatherVideoSources(tags[i]);
      if found != [] {
        hasSource := true;
      }
      rawSources := rawSources + found;
      if hasSource {
        var ds;
        extension, ds := DownloadRawSources(rawSources, extension, fileName, numbering, i);
        downloads := downloads + ds;
      }
    }
    assert tags[..|tags|] == tags;
  }

  /** The URL each raw source is downloaded from, in order. */
  function SourceUrls(raws: seq<string>): seq<string>
    decreases |raws|
  {
    if raws == [] then []
    else
      var n := |raws|;
      SourceUrls(raws[..n - 1]) + [SourceUrl(raws[n - 1])]
  }

  lemma {:induction false} SourceUrlsAppend(xs: seq<string>, ys: seq<string>)
    ensures SourceUrls(xs + ys) == SourceUrls(xs) + SourceUrls(ys)
    decreases |ys|
  {
    if ys == [] {
      assert xs + ys == xs;
    } else {
      var n := |ys|;
      AppendInit(xs, ys);
      SourceUrlsAppend(xs, ys[..n - 1]);
    }
  }

  /** The raw sources of all tags, tag after tag. */
  function AllVideoSources(tags: seq<Tag>): seq<string>
    decreases |tags|
  {
    if tags == [] then []
    else
      var n := |tags|;
      AllVideoSources(tags[..n - 1]) + TagVideoSources(tags[n - 1])
  }

  lemma AppendInit(xs: seq<string>, ys: seq<string>)
    requires ys != []
    ensures (xs + ys)[..|xs + ys| - 1] == xs + ys[..|ys| - 1]
    ensures (xs + ys)[|xs + ys| - 1] == ys[|ys| - 1]
  {
  }

  /** A direct source is used as it is and sets the extension to the chunk it ends
      in; a gfycat page becomes the thumbnail server's '<video name>-mobile.mp4', the
      video name being the page's last '/'-piece; anything else is used as it is,
      and the extension is carried over. */
  lemma SourceUrlSpec(raw: string, extension: string)
    ensures Direct(raw) ==>
      (&& SourceUrl(raw) == raw
       && NextVideoExtension(raw, extension) in CANDIDATES
       && |NextVideoExtension(raw, extension)| <= 4
       && EndsWith(raw, NextVideoExtension(raw, extension)))
    ensures !Direct(raw) ==> NextVideoExtension(raw, extension) == extension
    ensures !Direct(raw) && Contains(raw, "gfycat") ==>
      exists name ::
        (&& FreeOf(name, {'/'}) && EndsWith(raw, name)
         && SourceUrl(raw) == "https://thumbs.gfycat.com/" + name + "-mobile.mp4")
    ensures !Direct(raw) && !Contains(raw, "gfycat") ==> SourceUrl(raw) == raw
  {
    if !Direct(raw) && Contains(raw, "gfycat") {
      var name := LastPiece(raw, "/");
      LastPieceSpec(raw, "/");
      NotContainsFree(name, '/');
      if Contains(raw, "/") {
        assert raw == SplitOnLastPattern(raw, "/").0 + "/" + name;
        EndsWithAppend(SplitOnLastPattern(raw, "/").0 + "/", name);
      } else {
        EndsWithAppend("", name);
      }
    }
  }

  /** Downloading a run of raw sources requests each of them once, in order. */
  lemma {:induction false} DownloadRawUrls(raws: seq<string>, extension: string, fileName: string, numbering: bool, i: nat)
    ensures Urls(DownloadRaw(raws, extension, fileName, numbering, i).1) == SourceUrls(raws)
    decreases |raws|
  {
    if raws != [] {
      var n := |raws|;
      var init := raws[..n - 1];
      var last := raws[n - 1];
      var before := DownloadRaw(init, extension, fileName, numbering, i);
      var d := Download(SourceUrl(last), VideoName(fileName, numbering, i, NextVideoExtension(last, before.0)));
      assert DownloadRaw(raws, extension, fileName, numbering, i).1 == before.1 + [d];
      DownloadRawUrls(init, extension, fileName, numbering, i);
      UrlsAppend(before.1, [d]);
    }
  }

  /** Every download for tag `i` is named for tag `i`. */
  lemma {:induction false} DownloadRawNames(raws: seq<string>, extension: string, fileName: string, numbering: bool, i: nat)
    ensures forall d :: d in DownloadRaw(raws, extension, fileName, numbering, i).1 ==>
      exists e :: d.name == VideoName(fileName, numbering, i, e)
    decreases |raws|
  {
    if raws != [] {
      var n := |raws|;
      DownloadRawNames(raws[..n - 1], extension, fileName, numbering, i);
    }
  }

  /** The video loop reports a source exactly when some tag yields a raw source. */
  lemma {:induction false} VideoHasSource(tags: seq<Tag>, fileName: string, numbering: bool, perTag: bool)
    ensures VideoFold(tags, fileName, numbering, perTag).hasSource
      <==> exists k :: 0 <= k < |tags| && TagVideoSources(tags[k]) != []
    decreases |tags|
  {
    if tags != [] {
      var n := |tags|;
      var init := tags[..n - 1];
      VideoHasSource(init, fileName, numbering, perTag);
      VideoStepHasSource(tags, fileName, numbering, perTag);
      if exists k :: 0 <= k < n && TagVideoSources(tags[k]) != [] {
        var k :| 0 <= k < n && TagVideoSources(tags[k]) != [];
        if k < n - 1 {
          assert init[k] == tags[k];
        }
      }
      if exists k :: 0 <= k < n - 1 && TagVideoSources(init[k]) != [] {
        var k :| 0 <= k < n - 1 && TagVideoSources(init[k]) != [];
        assert init[k] == tags[k];
      }
    }
  }

  lemma VideoStepHasSource(tags: seq<Tag>, fileName: string, numbering: bool, perTag: bool)
    requires tags != []
    ensures VideoFold(tags, fileName, numbering, perTag).hasSource
      == (VideoFold(tags[..|tags| - 1], fileName, numbering, perTag).hasSource || TagVideoSources(tags[|tags| - 1]) != [])
  {
  }

  /** The downloads after one more tag: those before, and, once a source was seen,
      the downloads of the raw sources the tag leaves to be handled. */
  lemma VideoFoldLast(tags: seq<Tag>, fileName: string, numbering: bool, perTag: bool)
    requires tags != []
    ensures var n := |tags|;
      var st := VideoFold(tags[..n - 1], fileName, numbering, perTag);
      var found := TagVideoSources(tags[n - 1]);
      var raw := (if perTag then [] else st.raw) + found;
      VideoFold(tags, fileName, numbering, perTag).downloads
        == st.downloads + (if st.hasSource || found != [] then DownloadRaw(raw, st.extension, fileName, numbering, n - 1).1 else [])
  {
  }

  /** Every video name is the file name, then '-' and a two-digit tag index when
      numbering, then an extension. */
  lemma {:induction false} VideoNames(tags: seq<Tag>, fileName: string, numbering: bool, perTag: bool)
    ensures forall d :: d in VideoFold(tags, fileName, numbering, perTag).downloads ==>
      exists i: nat, e :: i < |tags| && d.name == VideoName(fileName, numbering, i, e)
    decreases |tags|
  {
    if tags != [] {
      var n := |tags|;
      var st := VideoFold(tags[..n - 1], fileName, numbering, perTag);
      var found := TagVideoSources(tags[n - 1]);
      var raw := (if perTag then [] else st.raw) + found;
      var ds := if st.hasSource || found != [] then DownloadRaw(raw, st.extension, fileName, numbering, n - 1).1 else [];
      assert VideoFold(tags, fileName, numbering, perTag).downloads == st.downloads + ds by {
        VideoFoldLast(tags, fileName, numbering, perTag);
      }
      assert forall d :: d in st.downloads ==>
        exists i: nat, e :: i < n - 1 && d.name == VideoName(fileName, numbering, i, e) by {
        VideoNames(tags[..n - 1], fileName, numbering, perTag);
      }
      var last: nat := n - 1;
      assert forall d :: d in ds ==> exists e :: d.name == VideoName(fileName, numbering, last, e) by {
        DownloadRawNames(raw, st.extension, fileName, numbering, last);
      }
      forall d | d in st.downloads + ds
        ensures exists i: nat, e :: i < n && d.name == VideoName(fileName, numbering, i, e)
      {
        if d in st.downloads {
          var i: nat, e :| i < n - 1 && d.name == VideoName(fileName, numbering, i, e);
        } else {
          var e :| d.name == VideoName(fileName, numbering, last, e);
        }
      }
    }
  }

  /** A single video tag is saved without an index; several are saved with one. */
  lemma NumberedOnlyWhenSeveral(tags: seq<Tag>, fileName: string, perTag: bool, d: Download)
    requires d in VideoRun(tags, fileName, perTag).downloads
    ensures |tags| <= 1 ==> exists e :: d.name == fileName + "." + e
    ensures |tags| > 1 ==> exists i: nat, e :: i < |tags| && d.name == fileName + "-" + ZeroPad(i, 2) + "." + e
  {
    VideoNames(tags, fileName, |tags| > 1, perTag);
  }

  /** With the raw sources gathered per tag, every raw source is downloaded exactly
      once, in order. */
  lemma {:induction false} PerTagDownloadsOnce(tags: seq<Tag>, fileName: string, numbering: bool)
    ensures Urls(VideoFold(tags, fileName, numbering, true).downloads) == SourceUrls(AllVideoSources(tags))
    decreases |tags|
  {
    if tags != [] {
      var n := |tags|;
      var st := VideoFold(tags[..n - 1], fileName, numbering, true);
      var found := TagVideoSources(tags[n - 1]);
      assert [] + found == found;
      VideoFoldLast(tags, fileName, numbering, true);
      assert VideoFold(tags, fileName, numbering, true).downloads == st.downloads + DownloadRaw(found, st.extension, fileName, numbering, n - 1).1;
      PerTagDownloadsOnce(tags[..n - 1], fileName, numbering);
      DownloadRawUrls(found, st.extension, fileName, numbering, n - 1);
      UrlsConcat(st.downloads, DownloadRaw(found, st.extension, fileName, numbering, n - 1).1,
        AllVideoSources(tags[..n - 1]), found);
      assert Urls(VideoFold(tags, fileName, numbering, true).downloads) == SourceUrls(AllVideoSources(tags[..n - 1]) + found);
      assert AllVideoSources(tags) == AllVideoSources(tags[..n - 1]) + found;
    }
  }

  lemma UrlsConcat(xs: seq<Download>, ys: seq<Download>, raws: seq<string>, more: seq<string>)
    requires Urls(xs) == SourceUrls(raws) && Urls(ys) == SourceUrls(more)
    ensures Urls(xs + ys) == SourceUrls(raws + more)
  {
    UrlsAppend(xs, ys);
    SourceUrlsAppend(raws, more);
  }

  /** One gfycat tag alone yields that tag's `src` once. */
  lemma GfycatOnly(src: string)
    requires Contains(src, "gfycat") && !Contains(src, "redgifs")
    ensures TagVideoSources(Tag(Some(src), None, [])) == [src]
  {
    var cs := VIDEO_SOURCE_CANDIDATES;
    assert cs[..1][..0] == [] && cs[..1][0] == "gfycat" && cs[1] == "redgifs";
    assert Copies(src, cs[..1]) == [src];
    assert Copies(src, cs) == [src];
  }

  /** As written, two gfycat tags make three downloads: the first tag's video is
      requested again while the second tag is handled. */
  lemma FirstVideoTwice(a: string, b: string, fileName: string)
    requires Contains(a, "gfycat") && !Contains(a, "redgifs")
    requires Contains(b, "gfycat") && !Contains(b, "redgifs")
    ensures Urls(VideoRun([Tag(Some(a), None, []), Tag(Some(b), None, [])], fileName, false).downloads)
      == [SourceUrl(a), SourceUrl(a), SourceUrl(b)]
  {
    var t0, t1 := Tag(Some(a), None, []), Tag(Some(b), None, []);
    var first := VideoFold([t0], fileName, true, false);
    FirstGfycatTag(a, fileName);
    GfycatOnly(b);
    SecondTag(t0, t1, fileName, true, false);
    assert first.raw + [b] == [a, b];
    var second := DownloadRaw([a, b], first.extension, fileName, true, 1).1;
    DownloadRawUrls([a, b], first.extension, fileName, true, 1);
    UrlsAppend(first.downloads, second);
    SourceUrlsPair(a, b);
  }

  /** The video loop over two tags, the first of which yields a source. */
  lemma SecondTag(t0: Tag, t1: Tag, fileName: string, numbering: bool, perTag: bool)
    requires VideoFold([t0], fileName, numbering, perTag).hasSource
    ensures var first := VideoFold([t0], fileName, numbering, perTag);
      var raw := (if perTag then [] else first.raw) + TagVideoSources(t1);
      VideoFold([t0, t1], fileName, numbering, perTag).downloads
        == first.downloads + DownloadRaw(raw, first.extension, fileName, numbering, 1).1
  {
    assert [t0, t1][..1] == [t0];
    VideoFoldLast([t0, t1], fileName, numbering, perTag);
  }

  /** After a first gfycat tag, its `src` is the one raw source and has been
      downloaded once. */
  lemma FirstGfycatTag(a: string, fileName: string)
    requires Contains(a, "gfycat") && !Contains(a, "redgifs")
    ensures var first := VideoFold([Tag(Some(a), None, [])], fileName, true, false);
      first.raw == [a] && first.hasSource && Urls(first.downloads) == SourceUrls([a])
  {
    GfycatOnly(a);
    VideoFoldOne(Tag(Some(a), None, []), fileName, true, false);
    DownloadRawUrls([a], "mp4", fileName, true, 0);
  }

  /** The video loop over a single tag. */
  lemma VideoFoldOne(tag: Tag, fileName: string, numbering: bool, perTag: bool)
    ensures var st := VideoFold([tag], fileName, numbering, perTag);
      var found := TagVideoSources(tag);
      && st.raw == found
      && st.hasSource == (|found| > 0)
      && st.downloads == if |found| > 0 then DownloadRaw(found, "mp4", fileName, numbering, 0).1 else []
  {
    assert [tag][..0] == [];
    var found := TagVideoSources(tag);
    assert [] + found == found;
  }

  lemma SourceUrlsPair(a: string, b: string)
    ensures SourceUrls([a]) == [SourceUrl(a)]
    ensures SourceUrls([a, b]) == [SourceUrl(a), SourceUrl(b)]
  {
    assert [a, b][..1] == [a];
    assert [a][..0] == [];
  }

  /** With the raw sources gathered per tag, the same two tags make two downloads,
      one for each tag. */
  lemma TwoVideosOnce(a: string, b: string, fileName: string)
    requires Contains(a, "gfycat") && !Contains(a, "redgifs")
    requires Contains(b, "gfycat") && !Contains(b, "redgifs")
    ensures Urls(VideoRun([Tag(Some(a), None, []), Tag(Some(b), None, [])], fileName, true).downloads)
      == [SourceUrl(a), SourceUrl(b)]
  {
    var tags := [Tag(Some(a), None, []), Tag(Some(b), None, [])];
    assert AllVideoSources(tags) == [a, b] by {
      GfycatOnly(a);
      GfycatOnly(b);
      assert tags[..1] == [tags[0]] && tags[..1][..0] == [];
      assert AllVideoSources(tags[..1]) == [a];
    }
    PerTagDownloadsOnce(tags, fileName, true);
    assert Urls(VideoRun(tags, fileName, true).downloads) == SourceUrls([a, b]);
    SourceUrlsPair(a, b);
  }
}
