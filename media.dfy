/** The pieces that the scrapers' `iterate_*source_tags` and `scan_article` functions
    share: source tags as records, the download requests they issue, the URL and
    content-type helpers, title normalisation and the external-link filter. */
module Media {
  import opened Strings
  import opened Optional

  /** A source tag, as far as the scrapers look at it: its `src` and `href`
      attributes and the `src` attribute of each nested `<source>` element. */
  datatype Tag = Tag(src: Option<string>, href: Option<string>, sources: seq<Option<string>>)

  /** One call `download(url, local_name)`. */
  datatype Download = Download(url: string, name: string)

  /** The URL of each download, in order. */
  function Urls(downloads: seq<Download>): seq<string>
    decreases |downloads|
  {
    if downloads == [] then [] else [downloads[0].url] + Urls(downloads[1..])
  }

  lemma {:induction false} UrlsAppend(xs: seq<Download>, ys: seq<Download>)
    ensures Urls(xs + ys) == Urls(xs) + Urls(ys)
    decreases |xs|
  {
    if xs == [] {
      assert xs + ys == ys;
    } else {
      assert (xs + ys)[1..] == xs[1..] + ys;
      UrlsAppend(xs[1..], ys);
    }
  }

  lemma UrlsOne(d: Download)
    ensures Urls([d]) == [d.url]
  {
    assert [d][1..] == [];
  }

  /** The extensions downloader.py, dccr.py, 12cr.py, accr.py and 52cr.py accept. */
  const EXTENSION_CANDIDATES: seq<string> := ["jpg", "jpeg", "png", "gif", "jfif", "webp", "mp4", "webm", "mov"]

  /** The file-name fragments downloader.py, 12cr.py and 52cr.py mean to ignore. */
  const FILE_NAME_IGNORED_PATTERNS: seq<string> :=
    ["028c715135212dd447915ed16949f7532588d3d95d113cada85703d1ef26",
     "fc13c25d018ccbde127b02044b6e4de17f28725faf1b891422ba6878e9f",
     "blocked.png"]

  /** The Korean words for "cosplay" and "cosplayer"; titles holding one are not scanned. */
  const TITLE_IGNORED_PATTERNS: seq<string> :=
    ["\U{CF54}\U{C2A4}\U{D504}\U{B808}", "\U{CF54}\U{C2A4}\U{C5B4}"]

  /** `s` holds one of `patterns` (the `for pattern in ...: if pattern in s: break`
      loops that end in an `else`). */
  predicate HoldsAny(s: string, patterns: seq<string>) {
    exists k :: 0 <= k < |patterns| && Contains(s, patterns[k])
  }

  /** `raw.split('?type')[0]`: the source cut at the first '?type'. */
  function CutType(raw: string): (r: string)
    ensures |r| <= |raw| && r == raw[..|r|]
    ensures !Contains(r, "?type")
    ensures |r| < |raw| ==> StartsWith(raw[|r|..], "?type")
  {
    FirstPieceCut(raw, "?type");
    FirstPiece(raw, "?type")
  }

  /** A protocol-relative URL ('//host/...') gets the `https:` scheme. */
  function WithScheme(raw: string): (url: string)
    ensures StartsWith(raw, "//") ==> url == "https:" + raw
    ensures !StartsWith(raw, "//") ==> url == raw
    ensures !StartsWith(url, "//")
  {
    if StartsWith(raw, "//") then
      var url := "https:" + raw;
      assert url[0] == 'h';
      url
    else raw
  }

  /** `url.split('.')[-1]`: the text after the last '.', or the whole URL. */
  function UrlChunk(url: string): (chunk: string)
    ensures !Contains(chunk, ".")
    ensures |chunk| <= |url| && chunk == url[|url| - |chunk|..]
  {
    SplitOnLastDot(url);
    LastPiece(url, ".")
  }

  lemma SplitOnLastDot(url: string)
    ensures var chunk := LastPiece(url, ".");
      !Contains(chunk, ".") && |chunk| <= |url| && chunk == url[|url| - |chunk|..]
  {
    var parts := Split(url, ".");
    var n := |parts|;
    SplitPiecesFree(url, ".");
    JoinSplit(url, ".");
    if n > 1 {
      JoinSnoc(".", parts[..n - 1], parts[n - 1]);
      assert parts[..n - 1] + [parts[n - 1]] == parts;
    }
  }

  /** `category, filetype = header.split('/')`: `None` when the header does not
      hold exactly one '/', where the unpacking raises `ValueError`. */
  function ContentTypeParts(header: string): (r: Option<(string, string)>)
    ensures r.Some? <==> CountChar(header, '/') == 1
    ensures r.Some? ==> header == r.value.0 + "/" + r.value.1
    ensures r.Some? ==> FreeOf(r.value.0, {'/'}) && FreeOf(r.value.1, {'/'})
  {
    var parts := Split(header, "/");
    SplitCharCount(header, '/');
    JoinSplit(header, "/");
    SplitPiecesFree(header, "/");
    if |parts| == 2 then
      NotContainsFree(parts[0], '/');
      NotContainsFree(parts[1], '/');
      Some((parts[0], parts[1]))
    else None
  }

  /** downloader.py's forgiving version: a header that does not split into two
      gives no category and is the file type as a whole. */
  function Categorised(header: string): (Option<string>, string) {
    match ContentTypeParts(header)
    case Some((category, filetype)) => (Some(category), filetype)
    case None => (None, header)
  }

  /** 'video/quicktime' is a .mov file. */
  function Quicktime(filetype: string): string {
    if filetype == "quicktime" then "mov" else filetype
  }

  /** `s.replace(' ', '-').replace('.', '-').replace('/', '-')`. */
  function Dashed(s: string): (r: string)
    ensures |r| == |s|
    ensures forall k :: 0 <= k < |s| ==> r[k] == if s[k] in {' ', '.', '/'} then '-' else s[k]
  {
    ReplaceChar(ReplaceChar(ReplaceChar(s, ' ', '-'), '.', '-'), '/', '-')
  }

  /** The title part of the dccr.py, 12cr.py, accr.py and 52cr.py file names:
      `title.strip()` with ' ', '.' and '/' made '-'. */
  function DashedTitle(title: string): string {
    Dashed(Strip(title))
  }

  /** Every character of `cs` in `s` becomes '_' (the `replace` loops over
      `PROHIBITED_CHARS`). */
  function Sanitised(s: string, cs: set<char>): (r: string)
    ensures |r| == |s|
    ensures forall k :: 0 <= k < |s| ==> r[k] == if s[k] in cs then '_' else s[k]
  {
    if s == [] then [] else [if s[0] in cs then '_' else s[0]] + Sanitised(s[1..], cs)
  }

  /** `for prohibited_char in PROHIBITED_CHARS: name = name.replace(prohibited_char, '_')`. */
  method ReplaceProhibited(name: string, prohibited: seq<char>) returns (r: string)
    ensures r == Sanitised(name, set c | c in prohibited)
  {
    r := name;
    for i := 0 to |prohibited|
      invariant |r| == |name|
      invariant forall k :: 0 <= k < |name| ==>
        r[k] == if name[k] in prohibited[..i] then '_' else name[k]
    {
      r := ReplaceChar(r, prohibited[i], '_');
      assert forall c :: c in prohibited[..i + 1] <==> c in prohibited[..i] || c == prohibited[i];
    }
    assert prohibited[..|prohibited|] == prohibited;
  }

  /** Keeps a link tag that has an `href` holding none of the ignored domains. */
  predicate IsExternal(tag: Tag, ignoredDomains: seq<string>) {
    tag.href.Some? && !HoldsAny(tag.href.value, ignoredDomains)
  }

  function ExternalOnly(tags: seq<Tag>, ignoredDomains: seq<string>): seq<Tag>
    decreases |tags|
  {
    if tags == [] then []
    else
      (if IsExternal(tags[0], ignoredDomains) then [tags[0]] else [])
      + ExternalOnly(tags[1..], ignoredDomains)
  }

  /** The external-link filter of `scan_article` in 52cr.py (also 12cr.py and accr.py). */
  method ExternalLinks(linkTags: seq<Tag>, ignoredDomains: seq<string>) returns (external: seq<Tag>)
    ensures external == ExternalOnly(linkTags, ignoredDomains)
  {
    external := [];
    for i := 0 to |linkTags|
      invariant external == ExternalOnly(linkTags[..i], ignoredDomains)
    {
      ExternalOnlyAppend(linkTags[..i], [linkTags[i]], ignoredDomains);
      assert linkTags[..i + 1] == linkTags[..i] + [linkTags[i]];
      var source := linkTags[i];
      if source.href.Some? {
        var ignored := false;
        for j := 0 to |ignoredDomains|
          invariant ignored <==> exists k :: 0 <= k < j && Contains(source.href.value, ignoredDomains[k])
        {
          if Contains(source.href.value, ignoredDomains[j]) {
            ignored := true;
            break;
          }
        }
        if !ignored {
          external := external + [source];
        }
      }
    }
    assert linkTags[..|linkTags|] == linkTags;
  }

  // ---------------------------------------------------------------------------
  // Lemmas

  /** A dashed string has no space, '.' or '/'. */
  lemma DashedFree(s: string)
    ensures FreeOf(Dashed(s), {' ', '.', '/'})
  {
    var r := Dashed(s);
    forall k | 0 <= k < |r| ensures r[k] != ' ' && r[k] != '.' && r[k] != '/' {
      if s[k] == ' ' || s[k] == '.' || s[k] == '/' {
        assert r[k] == '-';
      } else {
        assert r[k] == s[k];
      }
    }
  }

  /** Filtering the links goes piece by piece, so the kept links stay in order. */
  lemma {:induction false} ExternalOnlyAppend(a: seq<Tag>, b: seq<Tag>, ignoredDomains: seq<string>)
    ensures ExternalOnly(a + b, ignoredDomains) == ExternalOnly(a, ignoredDomains) + ExternalOnly(b, ignoredDomains)
    decreases |a|
  {
    if a == [] {
      assert a + b == b;
    } else {
      assert (a + b)[1..] == a[1..] + b;
      ExternalOnlyAppend(a[1..], b, ignoredDomains);
    }
  }

  /** A link is kept exactly when it has an `href` that holds no ignored domain. */
  lemma {:induction false} ExternalOnlyMembers(tags: seq<Tag>, ignoredDomains: seq<string>, t: Tag)
    ensures t in ExternalOnly(tags, ignoredDomains) <==> t in tags && IsExternal(t, ignoredDomains)
    decreases |tags|
  {
    if tags != [] {
      ExternalOnlyMembers(tags[1..], ignoredDomains, t);
      assert tags == [tags[0]] + tags[1..];
    }
  }

  /** Titles made of digits, like the random stand-in for a missing title, are never
      ignored. */
  lemma DigitTitlesKept(title: string)
    requires forall k :: 0 <= k < |title| ==> '0' <= title[k] <= '9'
    ensures !HoldsAny(title, TITLE_IGNORED_PATTERNS)
  {
    forall p | p in TITLE_IGNORED_PATTERNS ensures !Contains(title, p) {
      NoKoreanInDigits(title, p);
    }
  }

  lemma {:induction false} NoKoreanInDigits(s: string, p: string)
    requires forall k :: 0 <= k < |s| ==> '0' <= s[k] <= '9'
    requires |p| > 0 && p[0] == '\U{CF54}'
    ensures !Contains(s, p)
    decreases |s|
  {
    if |s| > 0 {
      NoKoreanInDigits(s[1..], p);
    }
  }

  /** Sanitising twice is sanitising once, and leaves no character of `cs` but '_'. */
  /** Making characters '_' brings back none of the characters a string was free of,
      as long as '_' is not among them. */
  lemma SanitisedFree(s: string, cs: set<char>, free: set<char>)
    requires FreeOf(s, free) && '_' !in free
    ensures FreeOf(Sanitised(s, cs), free + (cs - {'_'}))
  {
    var r := Sanitised(s, cs);
    forall k | 0 <= k < |r| ensures r[k] !in free + (cs - {'_'}) {
      assert s[k] !in free;
    }
  }

  lemma SanitisedSpec(s: string, cs: set<char>)
    ensures FreeOf(Sanitised(s, cs), cs - {'_'})
    ensures Sanitised(Sanitised(s, cs), cs) == Sanitised(s, cs)
  {
  }
}
