/** downloader.py's `iterate_source_tags`: for every tag, collect its sources by
    priority, make each a full URL, infer the file extension from the HEAD
    response's content-type or from the URL, and request the download under a name
    numbered by the tag. The content-type the server reports for a URL is the
    function `head`. */
module Downloader {
  import opened Strings
  import opened Optional
  import opened Format
  import opened Media

  /** A source URL with the index of the tag it came from. */
  datatype Sourced = Sourced(index: nat, url: string)

  /** What the source loop carries along: the extension last used (first 'tmp')
      and the downloads requested so far. */
  datatype Progress = Progress(extension: string, downloads: seq<Download>)

  /** The `src` of each nested `<source>` that has one, cut at '?type'. */
  function NestedSources(sources: seq<Option<string>>): seq<string>
    decreases |sources|
  {
    if sources == [] then []
    else
      var n := |sources|;
      NestedSources(sources[..n - 1]) + (match sources[n - 1] case Some(s) => [CutType(s)] case None => [])
  }

  /** The raw sources of one tag: its `src`, else its `href`, else every nested
      `<source src>`. */
  function RawSources(tag: Tag): seq<string> {
    match tag.src
    case Some(s) => [CutType(s)]
    case None =>
      match tag.href
      case Some(h) => [CutType(h)]
      case None => NestedSources(tag.sources)
  }

  /** The source URLs of tag number `i`. */
  function TagSources(i: nat, tag: Tag): (r: seq<Sourced>)
    ensures |r| == |RawSources(tag)|
    ensures forall k :: 0 <= k < |r| ==> r[k] == Sourced(i, WithScheme(RawSources(tag)[k]))
  {
    var raw := RawSources(tag);
    seq(|raw|, k requires 0 <= k < |raw| => Sourced(i, WithScheme(raw[k])))
  }

  /** The source URLs of all tags, tag after tag. */
  function AllSources(tags: seq<Tag>): seq<Sourced>
    decreases |tags|
  {
    if tags == [] then []
    else
      var n := |tags|;
      AllSources(tags[..n - 1]) + TagSources(n - 1, tags[n - 1])
  }

  /** A HEAD content-type whose category is `text`. */
  predicate IsTextLink(header: Option<string>) {
    header.Some? && Categorised(header.value).0 == Some("text")
  }

  predicate IgnoredUrl(url: string) {
    HoldsAny(url, FILE_NAME_IGNORED_PATTERNS)
  }

  /** Whether the loop leaves a source out: text links always; URLs holding an
      ignored pattern only when `honourIgnored` (which the code as written never does). */
  predicate Skipped(s: Sourced, head: string -> Option<string>, honourIgnored: bool) {
    IsTextLink(head(s.url)) || (honourIgnored && IgnoredUrl(s.url))
  }

  /** The extension for a source that is not skipped: the content-type's file type
      if it is a candidate, else (with no content-type at all) the URL's last
      '.'-chunk if that is a candidate, else the extension carried over. */
  function NextExtension(extension: string, url: string, header: Option<string>): string {
    match header
    case Some(h) =>
      var filetype := Quicktime(Categorised(h).1);
      if filetype in EXTENSION_CANDIDATES then filetype else extension
    case None =>
      var chunk := UrlChunk(url);
      if chunk in EXTENSION_CANDIDATES then chunk else extension
  }

  /** `'%s-%03d.%s' % (file_name, i, extension)` */
  function FileName(fileName: string, index: nat, extension: string): string {
    fileName + "-" + ZeroPad(index, 3) + "." + extension
  }

  function Step(p: Progress, s: Sourced, fileName: string, head: string -> Option<string>, honourIgnored: bool): Progress {
    if Skipped(s, head, honourIgnored) then p
    else
      var e := NextExtension(p.extension, s.url, head(s.url));
      Progress(e, p.downloads + [Download(s.url, FileName(fileName, s.index, e))])
  }

  /** The loop over `sources`, starting from `p`. */
  function Fold(p: Progress, sources: seq<Sourced>, fileName: string, head: string -> Option<string>, honourIgnored: bool): Progress
    decreases |sources|
  {
    if sources == [] then p
    else
      var n := |sources|;
      Step(Fold(p, sources[..n - 1], fileName, head, honourIgnored), sources[n - 1], fileName, head, honourIgnored)
  }

  /** The loop over all sources, from extension 'tmp' and no downloads. */
  function Run(sources: seq<Sourced>, fileName: string, head: string -> Option<string>, honourIgnored: bool): Progress {
    Fold(Progress("tmp", []), sources, fileName, head, honourIgnored)
  }

  /** The sources that are not skipped, in order: the reference for what gets downloaded. */
  function Kept(sources: seq<Sourced>, head: string -> Option<string>, honourIgnored: bool): seq<Sourced>
    decreases |sources|
  {
    if sources == [] then []
    else
      var n := |sources|;
      Kept(sources[..n - 1], head, honourIgnored)
      + (if Skipped(sources[n - 1], head, honourIgnored) then [] else [sources[n - 1]])
  }

  predicate GoodExtension(e: string) {
    e == "tmp" || e in EXTENSION_CANDIDATES
  }

  /** `name` is the name of a file of tag `index`: `file_name-NNN.ext` with a
      candidate extension or 'tmp'. */
  ghost predicate NamedFor(name: string, fileName: string, index: nat) {
    exists e :: GoodExtension(e) && name == FileName(fileName, index, e)
  }

  /** The first half of the tag loop: the tag's sources by priority. */
  method CollectRawSources(tag: Tag) returns (rawSources: seq<string>)
    ensures rawSources == RawSources(tag)
  {
    rawSources := [];
    if tag.src.Some? {
      rawSources := [CutType(tag.src.value)];
    } else if tag.href.Some? {
      rawSources := [CutType(tag.href.value)];
    } else {
      for j := 0 to |tag.sources|
        invariant rawSources == NestedSources(tag.sources[..j])
      {
        assert tag.sources[..j + 1][..j] == tag.sources[..j];
        if tag.sources[j].Some? {
          rawSources := rawSources + [CutType(tag.sources[j].value)];
        }
      }
      assert tag.sources[..|tag.sources|] == tag.sources;
    }
  }

  /** The body of the source loop for one source URL of tag `i`. */
  method VisitSource(extension: string, downloads: seq<Download>, i: nat, sourceUrl: string,
                     fileName: string, head: string -> Option<string>)
    returns (extension': string, downloads': seq<Download>)
    ensures Progress(extension', downloads')
      == Step(Progress(extension, downloads), Sourced(i, sourceUrl), fileName, head, false)
  {
    extension', downloads' := extension, downloads;
    for k := 0 to |FILE_NAME_IGNORED_PATTERNS| {
      if Contains(sourceUrl, FILE_NAME_IGNORED_PATTERNS[k]) {
        continue;  // leaves the pattern loop only
      }
    }
    var header := head(sourceUrl);
    if header.Some? {
      var category, filetype := Categorised(header.value).0, Categorised(header.value).1;
      if filetype == "quicktime" {
        filetype := "mov";
      }
      if category == Some("text") {
        return;
      }
      if filetype in EXTENSION_CANDIDATES {
        extension' := filetype;
      }
    } else {
      var chunk := UrlChunk(sourceUrl);
      if chunk in EXTENSION_CANDIDATES {
        extension' := chunk;
      }
    }
    downloads' := downloads' + [Download(sourceUrl, FileName(fileName, i, extension'))];
  }

  /** `iterate_source_tags(source_tags, file_name, ...)` as written: the downloads it requests. */
  method IterateSourceTags(sourceTags: seq<Tag>, fileName: string, head: string -> Option<string>)
    returns (downloads: seq<Download>)
    ensures downloads == Run(AllSources(sourceTags), fileName, head, false).downloads
  {
    var extension := "tmp";
    downloads := [];
    for i := 0 to |sourceTags|
      invariant Progress(extension, downloads) == Run(AllSources(sourceTags[..i]), fileName, head, false)
    {
      var tag := sourceTags[i];
      var rawSources := CollectRawSources(tag);
      ghost var start := Progress(extension, downloads);
      ghost var here := TagSources(i, tag);
      for j := 0 to |rawSources|
        invariant Progress(extension, downloads) == Fold(start, here[..j], fileName, head, false)
      {
        var rawSource := rawSources[j];
        var sourceUrl := if StartsWith(rawSource, "//") then "https:" + rawSource else rawSource;
        assert here[..j + 1][..j] == here[..j];
        extension, downloads := VisitSource(extension, downloads, i, sourceUrl, fileName, head);
      }
      assert here[..|rawSources|] == here;
      AllSourcesNext(sourceTags, i);
      FoldAppend(Progress("tmp", []), AllSources(sourceTags[..i]), here, fileName, head, false);
    }
    assert sourceTags[..|sourceTags|] == sourceTags;
  }

  // ---------------------------------------------------------------------------
  // Lemmas

  /** One download per source that is not skipped, in order, each for that
      source's URL and named after its tag with a candidate extension or 'tmp'.
      So text links are never downloaded, and all files of one tag share the
      `file_name-NNN.` stem. */
  lemma {:induction false} RunShape(sources: seq<Sourced>, fileName: string, head: string -> Option<string>, honourIgnored: bool)
    ensures var r := Run(sources, fileName, head, honourIgnored);
      var kept := Kept(sources, head, honourIgnored);
      && GoodExtension(r.extension)
      && |r.downloads| == |kept|
      && forall k :: 0 <= k < |kept| ==>
           r.downloads[k].url == kept[k].url
           && NamedFor(r.downloads[k].name, fileName, kept[k].index)
           && !Skipped(kept[k], head, honourIgnored)
    decreases |sources|
  {
    if sources != [] {
      var n := |sources|;
      RunShape(sources[..n - 1], fileName, head, honourIgnored);
      var p := Run(sources[..n - 1], fileName, head, honourIgnored);
      var s := sources[n - 1];
      if !Skipped(s, head, honourIgnored) {
        var e := NextExtension(p.extension, s.url, head(s.url));
        assert GoodExtension(e);
        assert NamedFor(FileName(fileName, s.index, e), fileName, s.index);
      }
    }
  }

  /** Running over two runs of sources is running over the second from where the first ended. */
  lemma {:induction false} FoldAppend(p: Progress, a: seq<Sourced>, b: seq<Sourced>,
                                      fileName: string, head: string -> Option<string>, honourIgnored: bool)
    ensures Fold(p, a + b, fileName, head, honourIgnored)
      == Fold(Fold(p, a, fileName, head, honourIgnored), b, fileName, head, honourIgnored)
    decreases |b|
  {
    if b == [] {
      assert a + b == a;
    } else {
      var n := |b|;
      FoldAppend(p, a, b[..n - 1], fileName, head, honourIgnored);
      assert (a + b)[..|a + b| - 1] == a + b[..n - 1];
    }
  }

  lemma AllSourcesNext(tags: seq<Tag>, i: nat)
    requires i < |tags|
    ensures AllSources(tags[..i + 1]) == AllSources(tags[..i]) + TagSources(i, tags[i])
  {
    assert tags[..i + 1][..i] == tags[..i];
  }

  /** Every source that is not skipped is kept. */
  lemma {:induction false} KeptHas(sources: seq<Sourced>, head: string -> Option<string>, honourIgnored: bool, k: nat)
    requires k < |sources| && !Skipped(sources[k], head, honourIgnored)
    ensures sources[k] in Kept(sources, head, honourIgnored)
    decreases |sources|
  {
    var n := |sources|;
    if k < n - 1 {
      KeptHas(sources[..n - 1], head, honourIgnored, k);
    }
  }

  /** As written, a source whose URL holds an ignored pattern is downloaded all
      the same, unless it is a text link. */
  lemma IgnoredStillDownloaded(sources: seq<Sourced>, fileName: string, head: string -> Option<string>, k: nat)
    requires k < |sources| && IgnoredUrl(sources[k].url) && !IsTextLink(head(sources[k].url))
    ensures exists j :: (0 <= j < |Run(sources, fileName, head, false).downloads|
      && Run(sources, fileName, head, false).downloads[j].url == sources[k].url)
  {
    KeptHas(sources, head, false, k);
    RunShape(sources, fileName, head, false);
    var kept := Kept(sources, head, false);
    var j :| 0 <= j < |kept| && kept[j] == sources[k];
    assert Run(sources, fileName, head, false).downloads[j].url == sources[k].url;
  }

  /** For example, an image at 'https://a/blocked.png' with no content-type is requested. */
  lemma BlockedPngDownloaded(fileName: string)
    ensures var url := "https://a/blocked.png";
      && IgnoredUrl(url)
      && Run([Sourced(0, url)], fileName, _ => None, false).downloads[0].url == url
  {
    var url := "https://a/blocked.png";
    ContainsAt("https://a/", "blocked.png", "");
    assert "https://a/" + "blocked.png" + "" == url;
    assert Contains(url, FILE_NAME_IGNORED_PATTERNS[2]);
    assert [Sourced(0, url)][..0] == [];
  }

  /** Skipping the ignored patterns, as the loop evidently means to: no requested
      URL holds one, and every other non-text source is still requested. */
  lemma IgnoredNeverDownloaded(sources: seq<Sourced>, fileName: string, head: string -> Option<string>)
    ensures var r := Run(sources, fileName, head, true);
      forall k :: 0 <= k < |r.downloads| ==> !IgnoredUrl(r.downloads[k].url) && !IsTextLink(head(r.downloads[k].url))
    ensures forall k :: 0 <= k < |sources| && !IgnoredUrl(sources[k].url) && !IsTextLink(head(sources[k].url)) ==>
      sources[k] in Kept(sources, head, true)
  {
    RunShape(sources, fileName, head, true);
    forall k | 0 <= k < |sources| && !IgnoredUrl(sources[k].url) && !IsTextLink(head(sources[k].url))
      ensures sources[k] in Kept(sources, head, true)
    {
      KeptHas(sources, head, true, k);
    }
  }
}
