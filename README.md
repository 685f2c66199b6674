# accr scrapers in Dafny

This project models the deterministic core of the hsseek/accr scraping scripts. They are
several near-duplicate Python scripts (dccr.py, hicr.py, ggcr.py, 12cr.py, accr.py,
52cr.py) that share the helpers in common.py and downloader.py. Each script does three things:

- It pages through a board's listing, keeps the rows inside a "maturity window" (old enough
  to be worth downloading, young enough to be new) and collects their article ids.
- It visits each article and turns its image, video and link tags into download requests
  with inferred file extensions and numbered file names.
- For the two browser-driven sites (dccr.py and hicr.py), it polls a download folder or a
  progress bar until the browser's download is over.

Everything that touches the outside world is a parameter of the model:
- the rows of listing page `p` are `pages(p)`;
- the HEAD content-type of a URL is `head(url)`;
- the current date is `now`;
- the k-th `os.walk` of the download folder is `walkAt(k)`;
- the n-th look at the progress bar is `readingAt(n)`;
- the outcome of each page-load attempt is `loads(i)`;
- the `random.uniform(1, 1.2)` draw is `jitter`.

HTML parsing is replaced by records: `Row` per site and `Tag` for source tags. Each record
holds what the CSS selectors give, with `Option` where an element or attribute may be missing.

Modules, one file each:
- Strings: Python's `split`, `join`, `strip` and `in` on `seq<char>`.
- Format: `'%0Nd'`.
- Calendar: a proleptic Gregorian calendar and `strptime(s, '%Y.%m.%d')`.
- Optional: `Option`.
- Common: common.py.
- Media: the tag, URL, content-type and title helpers that several scripts share.
- Listing: the row verdicts that every listing scan uses, and the page loop with early stop that dccr.py, 12cr.py and 52cr.py share.
- Downloader: downloader.py.
- SourceLoop: the sticky-attribute source loop that 12cr.py and accr.py each carry a copy of.
- Dccr, Hicr, Ggcr, Cr12, Accr, Cr52: the site scripts.

Loops in the source are methods with loop invariants. Each is proved equal to a recursive
specification function, and the lemmas state what the source promises about those functions.
Hicr's shared scan list, which `append_articles_to_scan` mutates in place, is the class
`Hicr.ScanList`. Its methods take a flag `compareUrls` that selects the duplicate check:
with it false they run hicr.py as written, which appends every taken url (see Findings);
with it true they compare urls, as the code evidently intends.

Where the model follows the code rather than the description of the project:
- The folder-polling timeout of dccr.py is `max(10, int(loading_sec * 30))` with no
  escalation per retry, because the code has none.
- hicr.py's comment puts the start timeout at 20 to 900 seconds, but the code allows up to
  800 × 1.2 = 960 (`Hicr.StartTimeout`).
- The `or consecutive_failures >= MAX_FAILURE` half of hicr.py's page-loop condition can
  never hold when it is tested. Each failure is followed by a `break`, and a page that
  succeeds resets the count to 0. The model leaves that half out.
- On a page it cannot load, hicr.py ends the scan (`break`), although its log message says
  it moves on to the next page. `Hicr.PageStep` ends the scan.

## Model

| member | source | states |
|---|---|---|
| Common.SplitOnLastPatternSpec | common.py:105-109 | the two pieces rebuild the input around the last occurrence of the pattern; without one, the leading piece is '' and the last piece is the input; the last piece never holds the pattern |
| Common.SplitOnLastPatternWithout | accr.py:83-87 | accr.py's copy, on a string without the pattern, gives `('', s)` |
| Common.LastPieceSpec | common.py:106 | `s.split(sep)[-1]` holds no `sep`, is what follows the last `sep`, and is the whole string when there is none |
| Common.SplitOnLastCharOf | accr.py:83-87 | splitting `a + c + b` on the one-character pattern `c`, with `b` free of `c`, gives exactly `(a, b)` |
| Common.RemoveExtensionSpec | ggcr.py:55-56 | a name with a '.' is the result, '.', and the text after its last '.'; a name without one gives '' (accr.py:90-91 is the same function) |
| Common.BuildTupleSpec | common.py:76-78 | joining the lines with '\n' gives back the file content with its surrounding newlines stripped; there is one line more than the content has newlines, and no line holds '\n' |
| Common.BuildTupleOfTuples | common.py:81-86 | one tuple per line, in order, each the line split on ','; joining a tuple with ',' gives its line back |
| Downloader.CollectRawSources | downloader.py:36-44 | a tag's raw sources by priority: its `src`, else its `href`, else the `src` of every nested `<source>` that has one, each cut before '?type' |
| Downloader.TagSources | downloader.py:49-50 | every raw source of a tag becomes one source URL, in order, marked with the tag's index; a '//' source gets 'https:' |
| Downloader.VisitSource | downloader.py:50-89 | one pass over a source URL: skipped for a text content-type, else the extension is updated and one download `file_name-NNN.ext` is requested |
| Downloader.IterateSourceTags | downloader.py:28-89 | the downloads requested are those of the source loop over every source of every tag, in order, starting from extension 'tmp' |
| Downloader.RunShape | downloader.py:58-89 | one download per source that is not a text link, in order; its URL is the source's; its name is `file_name-NNN.ext`, with NNN the index of the source's tag and ext a candidate or 'tmp' |
| Downloader.FoldAppend | downloader.py:49-89 | running the loop over two runs of sources is running it over the first and then over the second, with the extension carried across |
| Downloader.IgnoredStillDownloaded | downloader.py:52-55 | as written, a source URL holding an ignored pattern is still downloaded unless it is a text link |
| Downloader.BlockedPngDownloaded | downloader.py:52-55 | as written, 'https://a/blocked.png' holds an ignored pattern and is downloaded all the same |
| Downloader.IgnoredNeverDownloaded | downloader.py:52-55 | with the skip honoured, no download has an ignored pattern or a text content-type, and every other source is kept |
| Media.CutType | downloader.py:38 | `split('?type')[0]` is a prefix of the source with no '?type', and what it cuts off starts with '?type' |
| Media.WithScheme | downloader.py:50 | a protocol-relative URL gets 'https:' in front, any other URL is kept, and the result never starts with '//' |
| Media.UrlChunk | downloader.py:80 | `split('.')[-1]` is a suffix of the URL without '.' |
| Media.ContentTypeParts | downloader.py:61-65 | the unpacking `category, filetype = header.split('/')` succeeds exactly when the header holds one '/', and the two parts rebuild the header |
| Media.Dashed | dccr.py:54 | the three `replace` calls turn every ' ', '.' and '/' into '-' and keep every other character in place |
| Media.DashedFree | dccr.py:54 | a dashed title holds no ' ', '.' or '/' |
| Media.ReplaceProhibited | ggcr.py:204-205 | the `replace` loop over the prohibited characters makes each of them '_' and keeps everything else |
| Media.SanitisedSpec | ggcr.py:204-205 | after the replacements no prohibited character other than '_' is left, and doing them again changes nothing |
| Media.ExternalLinks | 52cr.py:61-71 | the links kept are exactly those with an `href` that holds no ignored domain, in their original order |
| Media.ExternalOnlyMembers | 52cr.py:63-71 | a link is kept exactly when it is among the links and is external |
| Media.ExternalOnlyAppend | 52cr.py:63-71 | the filter keeps order: filtering two runs of links is filtering each and concatenating |
| Media.DigitTitlesKept | 52cr.py:101-106 | the random digits that stand in for an unreadable title never hold an ignored title pattern |
| SourceLoop.TypedExtensionSpec | accr.py:138-154 | with a content-type, the extension becomes the file type if it is a candidate ('quicktime' read as 'mov'); otherwise the URL's last chunk if that is a candidate; otherwise it stays |
| SourceLoop.SourceUrlSpec | 12cr.py:74-75 | each raw value is cut before '?type'; in 12cr.py one starting with '/data' gets the root domain in front; in accr.py one starting with '//' gets 'https:' |
| SourceLoop.VisitSpec | 12cr.py:83-102 | a source raises exactly when its content-type does not split in two; it is passed over exactly when 12cr.py meets a text content-type; with no content-type the extension is kept |
| SourceLoop.StepSpec | 12cr.py:61-109 | a tag without `src` or `href` downloads nothing, and raises exactly when an earlier tag set the attribute; a tag with one takes that attribute and visits its source |
| SourceLoop.StepUrls | 12cr.py:61-109 | a tag that does not raise adds the download URLs it is expected to add, after those before it |
| SourceLoop.FoldUrls | 12cr.py:60-111 | a loop that does not raise requests exactly the expected URLs, tag by tag, in order |
| SourceLoop.FoldFailed | 12cr.py:60-111 | once the loop has raised, later tags change nothing |
| SourceLoop.FoldNames | 12cr.py:109 | every file name is that of some tag's index with a candidate extension or 'tmp' |
| SourceLoop.StepNames | accr.py:161-164 | a tag only adds downloads named for its own index with the extension current after it |
| SourceLoop.Cr12Names | 12cr.py:109 | 12cr.py numbers every file with three digits that read back as the tag index, whatever the tag count |
| SourceLoop.AttributeSticks | 12cr.py:61-72 | once a tag had `src` or `href`, the attribute stays set for all later tags |
| SourceLoop.LaterBareTagRaises | 12cr.py:67-73 | as written, a tag without `src` or `href` after one with them raises `KeyError` and ends the loop |
| SourceLoop.BareTagBetween | 12cr.py:67-73 | a bare tag between two sourced ones loses the second download as written and keeps it when the attribute is reset per tag |
| SourceLoop.ResetRaisesOnlyOnMalformed | 12cr.py:86 | with the attribute reset per tag, the loop raises only on a content-type that does not split in two |
| Cr12.VisitTag | 12cr.py:61-109 | one pass of the tag loop equals one step of the source loop as written |
| Cr12.IterateSourceTags | 12cr.py:60-111 | the downloads and the raise are those of the source loop as written over all tags |
| Cr12.InYearSpec | 12cr.py:36-37 | a stamp without a year parses only as one- or two-digit month and day that form a real date in that year |
| Cr12.InYearParses | 12cr.py:36-37 | putting the year and '.' in front of the stamp is parsing it with that year |
| Cr12.ShortDifferenceSpec | 12cr.py:35-40 | a month-day stamp is dated this year, or last year when this year's date is still ahead, so the difference is never negative; an impossible date gives `None` |
| Cr12.FullStampSpec | 12cr.py:41-43 | a full 'YYYY.MM.DD' stamp gives the days from that date to now |
| Cr12.StrippedStamp | 12cr.py:31-32 | a non-empty stamp without surrounding whitespace is used as it is |
| Cr12.DocIdSpec | 12cr.py:50 | the id is what follows the last 'id=' up to the first '&' after it, and holds no '&' |
| Cr12.LocalNameSpec | 12cr.py:49-56 | the name is the dashed title, '-' and the id; without a title it is the id alone |
| Cr12.ClassifySpec | 12cr.py:165-186 | a row is taken exactly when it is one day old and its title is not ignored, under its document id; it ends the scan exactly when it is two days old or more |
| Cr12.GetEntriesToScan | 12cr.py:153-191 | the ids are those the rows of pages `page .. page + span - 1` give, up to the first too-old row |
| Cr12.EntriesAreMature | 12cr.py:163-187 | every id returned is the document id of a one-day-old row on a scanned page |
| Cr52.DateDifference | common.py:25-31 | a difference exists exactly when the stamp is text that `strptime('%Y.%m.%d')` accepts |
| Cr52.DateDifferenceSpec | common.py:25-31 | a stamp written as 'YYYY.MM.DD' gives the days from that date to now |
| Cr52.DocId | 52cr.py:31 | the document id holds no 'srl=' |
| Cr52.DocIdSpec | 52cr.py:31 | the id is what follows the last 'srl=', or the whole URL without one |
| Cr52.LocalNameSpec | 52cr.py:30-37 | the name is the stripped title with ' ', '.' and '/' made '-', then '-' and the id; without a title it is the id alone |
| Cr52.ArticleNo | 52cr.py:112 | the article number holds no '=' |
| Cr52.ClassifySpec | 52cr.py:90-114 | a row is taken exactly when it is one day old and its title is not ignored, under the number after the link's last '='; it ends the scan exactly when two days old or more |
| Cr52.GetEntriesToScan | 52cr.py:79-118 | the ids are those the rows of the four pages from `page` give, up to the first too-old row |
| Cr52.EntriesAreMature | 52cr.py:90-114 | every id returned comes from a one-day-old row of the four scanned pages |
| Accr.ArticleId | accr.py:109 | the id taken from the URL holds no '?' |
| Accr.LocalNameSpec | accr.py:104-111 | the name is the stripped title with ' ', '.' and '/' made '-'; without a title it is the id before '?' of the URL's last segment |
| Accr.ShortTitleSpec | accr.py:171-172 | the short title is the stripped text before the last ' - '; a title without ' - ' gives '' |
| Accr.StoredNameSpec | accr.py:63-74 | a file saved with a candidate extension keeps its name, except that a webp file is stored under its stem and '.png' |
| Accr.VisitTag | accr.py:122-166 | one pass of the tag loop equals one step of the source loop with accr.py's scheme rule and numbering |
| Accr.IterateSourceTags | accr.py:114-166 | the downloads and the raise are those of the source loop over all tags, numbered only when there are several tags |
| Accr.IntValue | accr.py:241 | `int(likes)` succeeds exactly when the stripped text is a run of decimal digits with an optional sign |
| Accr.Numeral | accr.py:241 | without surrounding whitespace, `int` succeeds exactly on a run of decimal digits with an optional sign |
| Accr.NumeralShown | accr.py:241 | `int` reads back any number written in decimal |
| Accr.IntValueShown | accr.py:241 | whitespace around a number written in decimal does not change what `int` reads |
| Accr.RowId | accr.py:248 | the row id holds no '/' |
| Accr.TitleIgnored | accr.py:243-247 | the pattern loop reports a title exactly when it holds an ignored pattern |
| Accr.InspectRow | accr.py:220-249 | a row is regular exactly when its likes are not blank, and a regular row gets the verdict of the row filter |
| Accr.ClassifySpec | accr.py:225-249 | a regular row is taken exactly when its stamp has no ':', it is 1 to 399 days old, its likes read as a number at least `min_likes` and its title is not ignored; it ends the scan exactly when it is 400 days old or more; it raises exactly on an unreadable stamp or unreadable likes |
| Accr.ScanPage | accr.py:217-249 | the ids, whether a regular row was met, and how the row loop ended, as the row filter gives them |
| Accr.GetEntriesToScan | accr.py:207-253 | the ids returned, or the raise, are those of the page loop from `page` up to page 100 or the first page without a regular row |
| Accr.PageStop | accr.py:212 | the page loop stops at page 100, and on a page without a regular row |
| Accr.BlankPage | accr.py:217-223 | a page whose rows all have blank likes gives nothing and counts as having no regular row |
| Accr.PageFoldEnded | accr.py:233-236 | once a page's row loop has stopped or raised, later rows change nothing |
| Accr.OnlyPagesBelowMax | accr.py:212 | the result depends only on the pages below 100 |
| Accr.PageIds | accr.py:247-248 | every id a page yields comes from a regular row the filter takes |
| Accr.EntriesAreTaken | accr.py:207-253 | every id returned comes from a regular row on a page below 100 that the filter takes |
| Accr.ScannedRowsQualify | accr.py:207-253 | every id returned is the id of a row that is 1 to 399 days old, has enough likes and has no ignored title |
| Dccr.GetSize | dccr.py:76-84 | the total is the sum of the sizes of all files that are not symbolic links, over every directory of the walk |
| Dccr.FilesSizeZero | dccr.py:79-83 | a directory's files sum to 0 exactly when every non-link file is empty |
| Dccr.WalkSizeZero | dccr.py:76-84 | the folder size is 0 exactly when every non-link file in it is empty, in particular when there are none |
| Dccr.Timeout | dccr.py:90 | the timeout is never below 10 checks and never below `int(loading_sec * 30)`, and is one of the two |
| Dccr.SkipZeros | dccr.py:94-97 | the inner loop advances one second per empty sample and never passes the timeout it started below |
| Dccr.WaitForStart | dccr.py:94-97 | the inner loop ends at the sample and second the waiting rule gives |
| Dccr.WaitUntilStable | dccr.py:93-109 | the outer loop reports a timeout exactly as the polling rule does |
| Dccr.WaitForDownloading | dccr.py:87-109 | the result is true (timed out) exactly as the polling rule from `max(10, int(loading_sec * 30))` decides |
| Dccr.WaitingStep | dccr.py:98-106 | one pass of the outer loop: finished on two equal positive samples, else the next pass with the new sample |
| Dccr.SkippedAreEmpty | dccr.py:94-97 | the inner loop passes over only samples of an empty folder |
| Dccr.EmptyFolderTimesOut | dccr.py:93-109 | a folder that stays empty is never reported finished; the loop runs into the timeout |
| Dccr.SteadyFolderFinishes | dccr.py:98-103 | a folder of constant positive size is reported finished |
| Dccr.FinishedHasWitness | dccr.py:98-103 | finished only on two equal positive samples, with only empty-folder samples between them |
| Dccr.FinishedOnlyWhenStable | dccr.py:87-109 | the whole call reports finished only when two samples are equal and positive |
| Dccr.DocId | dccr.py:52 | the id is what follows the last 'no=', or the whole URL without one, and holds no 'no=' |
| Dccr.LocalNameSpec | dccr.py:51-58 | the name is the stripped title with ' ', '.' and '/' made '-', character by character, then '-' and the id; without a title it is the id alone |
| Dccr.LongNameWithoutDotGrows | dccr.py:175-180 | as written, a long name without '.' is kept whole behind a new '.' |
| Dccr.FiftyLettersGrow | dccr.py:175-180 | as written, a 50-letter name without '.' comes out 51 characters long |
| Dccr.RenamedSpec | dccr.py:174-180 | every new name is the local name, '-dc-', then the short name as it is, or a long one cut to 50 characters before its extension, never longer than the original |
| Dccr.ClassifySpec | dccr.py:204-232 | a row is taken exactly when it is no notice or poll, one day old, has a link and has no ignored title, under its link cut before '&page'; it ends the scan exactly when it is two days old or more |
| Dccr.GetEntriesToScan | dccr.py:192-239 | the ids are those the rows of pages `page .. page + span - 1` give, up to the first too-old row |
| Dccr.EntriesAreMature | dccr.py:204-232 | every id returned is the link of a one-day-old row on a scanned page, cut before '&page' |
| Hicr.TryAccessPage | hicr.py:74-88 | true exactly when one of the first `trial` attempts loads the page |
| Hicr.StartTimeout | hicr.py:162-164 | the start timeout lies between 20 and 960; up to 800 it is 20 or `loading_sec * 50` |
| Hicr.WaitForDownloadStart | hicr.py:155-199 | the result is the watch rule over the readings: finished on the button showing again after the download started; false on the timeout or on the fifth stall in a row |
| Hicr.FinishedAfterStart | hicr.py:176-197 | finished only if the button shows again within the timeout after a look that saw the download running |
| Hicr.FinishedOnlyAfterRunning | hicr.py:176-197 | a true result needs a running reading followed by a visible one |
| Hicr.NeverStartedFails | hicr.py:172-199 | a download that never starts ends in false at the timeout |
| Hicr.StallsStop | hicr.py:186-195 | enough stalled looks in a row within the timeout end the watch with false |
| Hicr.FiveStallsStop | hicr.py:189-195 | five stalled looks at the start end the watch with false |
| Hicr.ComposeDirName | hicr.py:138-146 | the folder name is the three-digit entry count, '-', the tag and '-' when there is one, and the sanitised base name |
| Hicr.BaseNameFree | hicr.py:138-139 | the base name taken from the zip path holds no '/', '|' or '_' |
| Hicr.DirNameSpec | hicr.py:138-146 | the folder name starts with three digits that read back as the entry count and '-', then the tag part; the rest holds no '/', '|' or prohibited character other than '_' |
| Hicr.MarkAndMove | hicr.py:69-71 | every listed file is moved to the destination under 'err-' and its own name |
| Hicr.ErrNamesDistinct | hicr.py:71 | distinct files get distinct new names |
| Hicr.ReadRows | hicr.py:243-254 | the rows are those of the first of three parses that finds any, or none |
| Hicr.ClassifySpec | hicr.py:258-280 | a row is taken exactly when it is two days old and its link has an href and a text, as the root plus the href; it ends the scan exactly when three days old or more; a stamp giving 0 or nothing is skipped |
| Hicr.ScanList.constructor | hicr.py:308 | the scan list starts empty |
| Hicr.ScanList.AddRows | hicr.py:256-283 | the list grows by the page's taken urls, each paired with the tag, as the duplicate check lets them through (all of them as written); the result says whether a row ended the scan |
| Hicr.ScanList.ScanPage | hicr.py:235-288 | one page: the list grows by what the page gives, through the same duplicate check; the scan ends when the page cannot be reached, shows no rows or has a too-old row |
| Hicr.ScanList.AppendArticlesToScan | hicr.py:228-288 | the list grows by every url the pages `page .. page + span - 1` give, in order, through the duplicate check; with `compareUrls` false (hicr.py as written) every url is appended, already listed or not |
| Hicr.AsWrittenAlwaysAppends | hicr.py:276-277 | as written, `url not in scan_list` always holds, because a string never equals a pair |
| Hicr.AsWrittenListsTwice | hicr.py:276-277 | as written, the same article seen twice is listed twice |
| Hicr.MergedSpec | hicr.py:276-277 | with the check comparing urls, the list stays free of duplicates, keeps what it had as a prefix, and lists every taken url |
| Hicr.MergedAsWritten | hicr.py:276-277 | with the check as written, the list keeps what it had and gains every taken url, in order, paired with the tag, duplicates included |
| Hicr.MergedTagged | hicr.py:277 | under either check, every entry added is a taken url paired with the listing's tag |
| Hicr.MergedAppend | hicr.py:256-283 | under either check, adding two runs of urls is adding their concatenation |
| Hicr.FilledMerged | hicr.py:233-288 | the page loop adds, through the duplicate check in force, every url the scan takes |
| Hicr.ScannedUnderRoot | hicr.py:272 | every url taken starts with the site root |
| Ggcr.LocalNameSpec | ggcr.py:197-206 | a name exists exactly when the URL holds a '/'; it is 'gg', the channel and article ending the URL, the likes as three digits and the stripped title with every prohibited character made '_', joined by '-'; that title part holds no prohibited character but '_' |
| Ggcr.UrlTail | ggcr.py:198-199 | a URL with a '/' ends in 'channel/article', neither holding a '/' |
| Ggcr.LikesPadded | ggcr.py:201 | `'%03d' % likes` is three digits below 1000, reads back as the likes and tells likes apart |
| Ggcr.ClassifyRow | ggcr.py:79-114 | the verdict on one row and the `prev_row_date` after it are those of the row rule |
| Ggcr.ScanRows | ggcr.py:78-114 | a page's ids, whether it met a too-old row, and `prev_row_date` afterwards, as the row rule gives them |
| Ggcr.GetEntriesToScan | ggcr.py:65-118 | the ids are those of the rows of pages `page .. page + span - 1`, taken in order with `prev_row_date` carried across pages, up to the first too-old row |
| Ggcr.RowVerdicts | ggcr.py:78-114 | one verdict per row |
| Ggcr.RowVerdictsAppend | ggcr.py:72-117 | the verdicts on two runs of rows are those of the first, then those of the second from the `prev_row_date` the first leaves |
| Ggcr.ScanCollect | ggcr.py:72-117 | scanning page by page is collecting over all rows of the page range |
| Ggcr.FirstDatedRowSkipped | ggcr.py:85-87 | the first row with a time of day only records `prev_row_date` and is never taken |
| Ggcr.StepSpec | ggcr.py:83-114 | a row is taken exactly when an earlier dated row was seen and it qualifies (2 days old, enough likes, a listed category, no ignored title), under the id after 'srl='; it ends the scan exactly when it is dated and three days old or more |
| Ggcr.TakenRowQualifies | ggcr.py:102-113 | a row whose verdict is taken qualifies, under its own id |
| Ggcr.CollectedQualify | ggcr.py:65-118 | every id returned is the id of a qualifying row |
| Ggcr.IterateImgSourceTags | ggcr.py:209-237 | the downloads, the has-source flag and the raise are those of the image loop |
| Ggcr.ImageHasSource | ggcr.py:215-218 | the function reports a source exactly when some tag has `src` |
| Ggcr.ImageRunFailed | ggcr.py:226-228 | once the loop raised on a bad content-type, later tags change nothing |
| Ggcr.ImageDownloads | ggcr.py:215-236 | a loop that did not raise downloads every `src` in order, each named with a two-digit tag index |
| Ggcr.GatherVideoSources | ggcr.py:247-258 | a tag gives its `src` once per video host it names, or else the `src` of each nested source |
| Ggcr.DownloadRawSources | ggcr.py:261-276 | the downloads and extension after a run of raw sources are those of the rewriting rule |
| Ggcr.IterateVideoSourceTags | ggcr.py:240-277 | the has-source flag and the downloads are those of the video loop as written |
| Ggcr.SourceUrlSpec | ggcr.py:262-271 | a direct link to a candidate file of at most four letters is used as it is with that extension; a gfycat page becomes its '-mobile.mp4' thumbnail; anything else is used unchanged |
| Ggcr.DownloadRawUrls | ggcr.py:261-276 | each raw source is requested once, in order, from its rewritten URL |
| Ggcr.DownloadRawNames | ggcr.py:273-276 | each download of tag `i` is named for tag `i` |
| Ggcr.VideoHasSource | ggcr.py:246-258 | the function reports a source exactly when some tag yields a raw source |
| Ggcr.VideoNames | ggcr.py:273-276 | every video name is the file name, with '-' and a two-digit tag index when numbering, and an extension |
| Ggcr.NumberedOnlyWhenSeveral | ggcr.py:245 | a single tag is saved without an index, several tags with one |
| Ggcr.VideoFoldLast | ggcr.py:246-276 | one more tag adds the downloads of the raw sources gathered so far, once a source was seen |
| Ggcr.FirstVideoTwice | ggcr.py:244-261 | as written, two gfycat tags make three downloads, the first video twice |
| Ggcr.PerTagDownloadsOnce | ggcr.py:244-276 | with the raw sources gathered per tag, every raw source is requested exactly once, in order |
| Ggcr.TwoVideosOnce | ggcr.py:244-276 | with the sources gathered per tag, the same two gfycat tags make two downloads |
| Listing.Classified | dccr.py:204 | one verdict per row, in order |
| Listing.ScanRows | 52cr.py:90-114 | a page's row loop collects the taken ids before the first too-old row and says whether it met one |
| Listing.ScanPages | dccr.py:197-239 | the page loop collects the taken ids of pages `page .. page + span - 1` up to the first too-old row, and visits pages up to and including the one that holds it |
| Listing.PagesVisitedSpec | dccr.py:197-238 | no more pages are visited than the span; fewer only when the last one visited holds a too-old row, and none before it does |
| Listing.ScanFromCollect | dccr.py:197-239 | scanning page by page is collecting over the verdicts of all pages in range |
| Listing.CollectMembership | 52cr.py:96-113 | an id is collected exactly when some row takes it with no too-old row before it |
| Listing.CollectStopped | 52cr.py:96-99 | rows after a too-old row add nothing |
| Listing.CollectAppend | 52cr.py:84-117 | with no too-old row in the first run, the ids of two runs are those of each, concatenated |
| Listing.CollectLength | 52cr.py:90-114 | no more ids are collected than there are rows |
| Listing.VerdictsMembers | dccr.py:197-204 | a verdict occurs in the scan exactly when some row of a page in range gets it |
| Calendar.ParseDate | common.py:27 | a parsed date is always a real date |
| Calendar.ParseShow | common.py:27 | a date written as 'YYYY.MM.DD' parses back to itself |
| Calendar.SameYearOrder | 12cr.py:38 | within one year, one date has a larger day number exactly when it falls later |
| Calendar.EarlierYear | 12cr.py:38-40 | a date of an earlier year has a smaller day number |
| Format.ZeroPadSpec | ggcr.py:201 | `'%0Nd'` gives digits that read back as the number, at least N of them |
| Format.Pad3 | hicr.py:146 | a number below 1000 is written as exactly three digits that read back as it |
| Format.ZeroPadInjective | hicr.py:146 | different numbers are padded differently |

## Left out

- All network, browser and file-system effects are left out:
  - HTTP requests;
  - Selenium drivers, clicks and waits;
  - zip extraction;
  - `os.rename`, `os.listdir` and `os.walk` themselves;
  - PIL's image conversion;
  - the streamed download in `download`;
  - log files and `print`.

  The model computes the names and the requests, and takes what those effects observe as parameters.
- `time.sleep`, `datetime.now` and `random` are not modelled as effects.
  - The current date is `now`.
  - Elapsed seconds are `loadingSec`.
  - The random timeout factor of hicr.py is `jitter` in [1, 1.2].
  - A random title stands in as "no title": it is made of digits, and `Media.DigitTitlesKept` shows that such a title is never ignored.
- BeautifulSoup is left out; rows and tags are records of what the selectors give.
- A row or tag whose selector finds nothing, and so raises `AttributeError` or `TypeError` out of the whole scan, is not modelled; the records assume those elements are present. The `href` of a link that is taken is an example.
- Exceptions that leave a scan, and the `try` blocks of `process_domain` and of the top-level scripts that catch them, are left out. In particular:
  - ggcr.py's unguarded `strptime` and `int(likes)` are assumed to succeed;
  - hicr.py's and dccr.py's `get_date_difference` are given as their result (`dayDiff`).
  Accr.py's raising row filter is modelled, as `None`.
- `strptime` is modelled for the formats used, with a year of exactly four digits and a month and a day of one or two digits each. Its acceptance of space-padded fields is left out, and so are non-ASCII digits, in `strptime` and in `int()`. `int()`'s '_' separators are left out too.
- `str.isspace` and `str.strip` use the fixed set of Unicode whitespace characters `Strings.WHITESPACE`.
- `scan_article` in each script is left out apart from the name computations and the loops it calls. The title text it reads is a parameter.
- hicr.py's `click_download_button` and `scan_article` are left out. `downloader.wait_finish_downloading` is not part of this model.
- The proxy helpers `get_free_proxies`, `get_proxy_session` and `get_ip`, and `get_str_time`, `get_elapsed_sec` and `log` in common.py, are left out: they are I/O and clock reads.
- `initiate_browser` and `element_exists_by_class` are left out: browser setup.
- The top-level loops of each script (`process_domain` and the module-level code) are left out: they only chain the modelled functions with sleeps and logging.
- `common.Constants` is not part of this model. ggcr.py and hicr.py read `PROHIBITED_CHARS` and `IGNORED_TITLE_PATTERNS` from it, so those values are parameters: `prohibited` and `Board.ignored`. The constants that 12cr.py, 52cr.py and accr.py declare themselves are in Media.
- downloader.py's `download` converts a webp file to png the same way accr.py's does. Only accr.py's renaming is stated (`Accr.StoredNameSpec`).
- The content-type HEAD response is taken to be the same for every request of the same URL (`head` is a function).

## Findings

| source | as written | input that shows it | evidently intended | confidence | as-written member | corrected member |
|---|---|---|---|---|---|---|
| hicr.py:276-277 | `url not in scan_list` looks for a string in a list of `(url, domain_tag)` pairs, so it always holds | the same article listed on two scanned pages (or in two listings) | an article already listed is not added again | not executed | Hicr.AsWrittenListsTwice | Hicr.MergedSpec |
| downloader.py:52-55 | the `continue` inside the pattern loop only moves to the next pattern, so an ignored source is downloaded anyway | a source 'https://a/blocked.png' with no content-type | a source holding an ignored pattern is skipped | not executed | Downloader.BlockedPngDownloaded | Downloader.IgnoredNeverDownloaded |
| ggcr.py:244-261 | `raw_sources` is created once, before the tag loop, so each tag downloads again every source of the tags before it | two iframe tags whose `src` names gfycat | each raw source is downloaded once | not executed | Ggcr.FirstVideoTwice | Ggcr.TwoVideosOnce |
| dccr.py:175-180 | a long file name without '.' splits into `('', name)`, so it is kept whole behind a new '.' instead of being cut | a downloaded file named with fifty 'a's | a long name is cut to 50 characters | not executed | Dccr.FiftyLettersGrow | Dccr.RenamedSpec |
| 12cr.py:67-73 | `attribute` is not reset per tag, so a tag with neither `src` nor `href` after one with `src` raises `KeyError` and ends the loop | tags with `src`, with nothing, then with `src` again | a tag without a source is passed over | not executed | SourceLoop.BareTagBetween | SourceLoop.ResetRaisesOnlyOnMalformed |
