/** The source loop that 12cr.py and accr.py share (`iterate_source_tags`,
    12cr.py:60-111 and accr.py:114-166). A tag is read through an `attribute`
    variable: 'src' when the tag has one, else 'href' when it has one, else the
    value an earlier tag left behind; a tag without either, after one with a
    source, is read under a name it lacks and raises `KeyError`. A content-type that
    does not hold exactly one '/' makes the unpacking raise. Either exception ends
    the loop (`failed`); the caller logs it. The two scrapers differ in how they
    complete a URL, whether they skip text links and how they number files (`Site`). */
module SourceLoop {
  import opened Strings
  import opened Optional
  import opened Format
  import opened Media

  datatype Attribute = Src | Href

  /** 12cr.py prefixes '/data' sources with its first root domain, skips text links
      and numbers every file with three digits; accr.py gives '//' sources the https
      scheme, downloads text links all the same and numbers files with two digits
      only when there are several tags. */
  datatype Site = Cr12Site(rootDomain: string) | AccrSite(numbering: bool)

  /** The URL a raw attribute value is downloaded from. */
  function SourceUrl(site: Site, raw: string): string {
    var cut := CutType(raw);
    match site
    case Cr12Site(rootDomain) => if StartsWith(cut, "/data") then rootDomain + cut else cut
    case AccrSite(_) => WithScheme(cut)
  }

  /** The local name of a file of tag `i`. */
  function FileName(site: Site, fileName: string, i: nat, extension: string): string {
    match site
    case Cr12Site(_) => fileName + "-" + ZeroPad(i, 3) + "." + extension
    case AccrSite(numbering) =>
      if numbering then fileName + "-" + ZeroPad(i, 2) + "." + extension else fileName + "." + extension
  }

  predicate SkipsText(site: Site) {
    site.Cr12Site?
  }

  /** The attribute the loop reads for `tag`, given the one left by earlier tags. */
  function Chosen(previous: Option<Attribute>, tag: Tag): Option<Attribute> {
    if tag.src.Some? then Some(Src) else if tag.href.Some? then Some(Href) else previous
  }

  /** `tag[attribute]`; `None` where the lookup raises `KeyError`. */
  function Read(tag: Tag, a: Attribute): Option<string> {
    match a
    case Src => tag.src
    case Href => tag.href
  }

  /** The source a tag offers by itself: its `src`, else its `href`. */
  function Own(tag: Tag): Option<string> {
    if tag.src.Some? then tag.src else tag.href
  }

  /** The extension after a well-formed content-type with file type `filetype`: the
      file type (with 'quicktime' read as 'mov') when it is a candidate, else the
      URL's last '.'-chunk when that is one, else the extension carried over. */
  function TypedExtension(extension: string, url: string, filetype: string): string {
    var t := Quicktime(filetype);
    if t in EXTENSION_CANDIDATES then t
    else
      var chunk := UrlChunk(url);
      if chunk in EXTENSION_CANDIDATES then chunk else extension
  }

  /** What the content-type of a source decides: the loop raises, passes the
      source over, or downloads it with the given extension. */
  datatype Visit = Raise | Pass | Get(extension: string)

  /** The content-type checks for source `url` with HEAD content-type `header`,
      the extension so far being `extension`. */
  function VisitSource(site: Site, extension: string, url: string, header: Option<string>): Visit {
    match header
    case None => Get(extension)
    case Some(h) =>
      match ContentTypeParts(h)
      case None => Raise
      case Some((category, filetype)) =>
        if SkipsText(site) && category == "text" then Pass else Get(TypedExtension(extension, url, filetype))
  }

  /** What the loop carries from tag to tag. */
  datatype LoopState = LoopState(attribute: Option<Attribute>, extension: string, downloads: seq<Download>, failed: bool)

  /** The effect of visiting source `url` of tag `i`. */
  function Apply(site: Site, st: LoopState, i: nat, url: string, v: Visit, fileName: string): LoopState {
    match v
    case Raise => st.(failed := true)
    case Pass => st
    case Get(e) => st.(extension := e, downloads := st.downloads + [Download(url, FileName(site, fileName, i, e))])
  }

  /** One pass of the loop over tag number `i`. As written (`reset` false) the
      attribute carries over from earlier tags; with `reset` every tag starts
      without one, as the loop's "no source found" branch evidently expects. */
  function Step(site: Site, st: LoopState, i: nat, tag: Tag, fileName: string,
                head: string -> Option<string>, reset: bool): LoopState
  {
    if st.failed then st
    else
      var attribute := Chosen(if reset then None else st.attribute, tag);
      var kept := st.(attribute := attribute);
      match attribute
      case None => kept
      case Some(a) =>
        match Read(tag, a)
        case None => kept.(failed := true)
        case Some(raw) =>
          var url := SourceUrl(site, raw);
          Apply(site, kept, i, url, VisitSource(site, st.extension, url, head(url)), fileName)
  }

  /** The loop over `tags`, from no attribute, extension 'tmp' and no downloads. */
  function Fold(site: Site, tags: seq<Tag>, fileName: string, head: string -> Option<string>, reset: bool): LoopState
    decreases |tags|
  {
    if tags == [] then LoopState(None, "tmp", [], false)
    else
      var n := |tags|;
      Step(site, Fold(site, tags[..n - 1], fileName, head, reset), n - 1, tags[n - 1], fileName, head, reset)
  }

  /** A source whose content-type says it is text, where the site skips those. */
  predicate TextSkipped(site: Site, url: string, head: string -> Option<string>) {
    VisitSource(site, "tmp", url, head(url)).Pass?
  }

  /** What a tag contributes to the reference: its own source, unless it has none
      or it is a text link the site skips. */
  function ExpectedOne(site: Site, tag: Tag, head: string -> Option<string>): seq<string> {
    match Own(tag)
    case None => []
    case Some(raw) =>
      var url := SourceUrl(site, raw);
      if TextSkipped(site, url, head) then [] else [url]
  }

  /** The reference for what is downloaded: the source of every tag that offers
      one, in tag order, except the text links a site skips. */
  function Expected(site: Site, tags: seq<Tag>, head: string -> Option<string>): seq<string>
    decreases |tags|
  {
    if tags == [] then []
    else
      var n := |tags|;
      Expected(site, tags[..n - 1], head) + ExpectedOne(site, tags[n - 1], head)
  }

  /** A content-type the unpacking cannot split into two. */
  predicate Malformed(url: string, head: string -> Option<string>) {
    head(url).Some? && ContentTypeParts(head(url).value).None?
  }

  predicate GoodExtension(e: string) {
    e == "tmp" || e in EXTENSION_CANDIDATES
  }

  // ---------------------------------------------------------------------------
  // Lemmas

  /** A well-formed content-type gives a candidate extension or keeps the old one;
      'video/quicktime' gives 'mov'. */
  lemma TypedExtensionSpec(extension: string, url: string, filetype: string)
    ensures var e := TypedExtension(extension, url, filetype);
      && (e in EXTENSION_CANDIDATES || e == extension)
      && (Quicktime(filetype) in EXTENSION_CANDIDATES ==> e == Quicktime(filetype))
      && (filetype == "quicktime" ==> e == "mov")
      && (Quicktime(filetype) !in EXTENSION_CANDIDATES && UrlChunk(url) in EXTENSION_CANDIDATES ==> e == UrlChunk(url))
  {
  }

  /** 12cr.py completes a source starting with '/data' with its root domain and
      leaves every other one as cut; accr.py gives a protocol-relative source the
      https scheme. Both cut the source at the first '?type'. */
  lemma SourceUrlSpec(site: Site, raw: string)
    ensures var cut := CutType(raw);
      && !Contains(cut, "?type") && StartsWith(raw, cut)
      && (site.Cr12Site? && StartsWith(cut, "/data") ==> SourceUrl(site, raw) == site.rootDomain + cut)
      && (site.Cr12Site? && !StartsWith(cut, "/data") ==> SourceUrl(site, raw) == cut)
      && (site.AccrSite? && StartsWith(cut, "//") ==> SourceUrl(site, raw) == "https:" + cut)
      && (site.AccrSite? && !StartsWith(cut, "//") ==> SourceUrl(site, raw) == cut)
  {
  }

  /** Once the loop has raised, the remaining tags change nothing. */
  lemma {:induction false} FoldFailed(site: Site, tags: seq<Tag>, i: nat, fileName: string,
                                      head: string -> Option<string>, reset: bool)
    requires i <= |tags| && Fold(site, tags[..i], fileName, head, reset).failed
    ensures Fold(site, tags, fileName, head, reset) == Fold(site, tags[..i], fileName, head, reset)
    decreases |tags| - i
  {
    if i < |tags| {
      assert tags[..i + 1][..i] == tags[..i];
      FoldFailed(site, tags, i + 1, fileName, head, reset);
    } else {
      assert tags[..i] == tags;
    }
  }

  /** A source is skipped as text exactly when its content-type is well formed with
      category 'text' and the site skips text links; the loop raises on it exactly
      when its content-type does not split in two. */
  lemma VisitSpec(site: Site, extension: string, url: string, head: string -> Option<string>)
    ensures var v := VisitSource(site, extension, url, head(url));
      && (v.Raise? <==> Malformed(url, head))
      && (v.Pass? <==> TextSkipped(site, url, head))
      && (head(url).None? ==> v == Get(extension))
      && (GoodExtension(extension) && v.Get? ==> GoodExtension(v.extension))
  {
    var v := VisitSource(site, extension, url, head(url));
    if v.Get? && head(url).Some? {
      var (category, filetype) := ContentTypeParts(head(url).value).value;
      TypedExtensionSpec(extension, url, filetype);
    }
  }

  /** One pass of the loop: a tag without a source of its own changes nothing but,
      as written, raises once an attribute is set; a tag with one reads that source. */
  lemma StepSpec(site: Site, st: LoopState, i: nat, tag: Tag, fileName: string,
                 head: string -> Option<string>, reset: bool)
    requires !st.failed
    ensures var r := Step(site, st, i, tag, fileName, head, reset);
      Own(tag).None? ==>
        r.downloads == st.downloads && r.extension == st.extension
        && (r.failed <==> !reset && st.attribute.Some?)
    ensures var r := Step(site, st, i, tag, fileName, head, reset);
      Own(tag).Some? ==>
        var url := SourceUrl(site, Own(tag).value);
        && r.attribute.Some?
        && r == Apply(site, st.(attribute := r.attribute), i, url, VisitSource(site, st.extension, url, head(url)), fileName)
  {
  }

  /** A pass that does not raise adds the tag's expected download, if any. */
  lemma StepUrls(site: Site, st: LoopState, i: nat, tag: Tag, fileName: string,
                 head: string -> Option<string>, reset: bool)
    requires !st.failed && !Step(site, st, i, tag, fileName, head, reset).failed
    ensures Urls(Step(site, st, i, tag, fileName, head, reset).downloads) == Urls(st.downloads) + ExpectedOne(site, tag, head)
  {
    var r := Step(site, st, i, tag, fileName, head, reset);
    StepSpec(site, st, i, tag, fileName, head, reset);
    if Own(tag).Some? {
      var url := SourceUrl(site, Own(tag).value);
      VisitSpec(site, st.extension, url, head);
      if !TextSkipped(site, url, head) {
        var d := Download(url, FileName(site, fileName, i, r.extension));
        assert r.downloads == st.downloads + [d];
        UrlsAppend(st.downloads, [d]);
        UrlsOne(d);
      } else {
        assert r.downloads == st.downloads;
      }
    }
  }

  /** A loop that did not raise downloads exactly the expected sources, in order. */
  lemma {:induction false} FoldUrls(site: Site, tags: seq<Tag>, fileName: string, head: string -> Option<string>, reset: bool)
    requires !Fold(site, tags, fileName, head, reset).failed
    ensures Urls(Fold(site, tags, fileName, head, reset).downloads) == Expected(site, tags, head)
    decreases |tags|
  {
    if tags != [] {
      var n := |tags|;
      var before := Fold(site, tags[..n - 1], fileName, head, reset);
      assert !before.failed;
      FoldUrls(site, tags[..n - 1], fileName, head, reset);
      StepUrls(site, before, n - 1, tags[n - 1], fileName, head, reset);
    }
  }

  /** Every file is named after the tag it came from, with a candidate extension
      or 'tmp'. */
  lemma {:induction false} FoldNames(site: Site, tags: seq<Tag>, fileName: string, head: string -> Option<string>, reset: bool)
    ensures GoodExtension(Fold(site, tags, fileName, head, reset).extension)
    ensures forall d :: d in Fold(site, tags, fileName, head, reset).downloads ==>
      exists i: nat, e :: i < |tags| && GoodExtension(e) && d.name == FileName(site, fileName, i, e)
    decreases |tags|
  {
    if tags != [] {
      var n := |tags|;
      var before := Fold(site, tags[..n - 1], fileName, head, reset);
      FoldNames(site, tags[..n - 1], fileName, head, reset);
      var after := Fold(site, tags, fileName, head, reset);
      var last: nat := n - 1;
      StepNames(site, before, last, tags[last], fileName, head, reset);
      forall d | d in after.downloads
        ensures exists i: nat, e :: i < n && GoodExtension(e) && d.name == FileName(site, fileName, i, e)
      {
        if d in before.downloads {
          var i: nat, e :| i < n - 1 && GoodExtension(e) && d.name == FileName(site, fileName, i, e);
        } else {
          assert d.name == FileName(site, fileName, last, after.extension);
        }
      }
    }
  }

  /** One pass keeps the extension good and adds only downloads named for tag `i`
      with the extension it leaves. */
  lemma StepNames(site: Site, st: LoopState, i: nat, tag: Tag, fileName: string,
                  head: string -> Option<string>, reset: bool)
    requires GoodExtension(st.extension)
    ensures var r := Step(site, st, i, tag, fileName, head, reset);
      && GoodExtension(r.extension)
      && forall d :: d in r.downloads ==> d in st.downloads || d.name == FileName(site, fileName, i, r.extension)
  {
    if !st.failed {
      StepSpec(site, st, i, tag, fileName, head, reset);
      if Own(tag).Some? {
        VisitSpec(site, st.extension, SourceUrl(site, Own(tag).value), head);
      }
    }
  }

  /** 12cr.py names every file with a three-digit tag index, whatever the number of
      tags; the index reads back as the tag's position. */
  lemma Cr12Names(rootDomain: string, fileName: string, i: nat, e: string)
    requires i < 1000
    ensures var name := FileName(Cr12Site(rootDomain), fileName, i, e);
      var index := ZeroPad(i, 3);
      && name == fileName + "-" + index + "." + e
      && |index| == 3 && AllDigits(index) && Value(index) == i
  {
    Pad3(i);
  }

  /** As written, once a tag has offered a source the attribute stays set: the loop
      either has raised or holds an attribute. */
  lemma {:induction false} AttributeSticks(site: Site, tags: seq<Tag>, j: nat, fileName: string, head: string -> Option<string>)
    requires j < |tags| && Own(tags[j]).Some?
    ensures var st := Fold(site, tags, fileName, head, false);
      st.failed || st.attribute.Some?
    decreases |tags|
  {
    var n := |tags|;
    var before := Fold(site, tags[..n - 1], fileName, head, false);
    if j < n - 1 {
      AttributeSticks(site, tags[..n - 1], j, fileName, head);
    }
    if !before.failed {
      StepSpec(site, before, n - 1, tags[n - 1], fileName, head, false);
    }
  }

  /** As written, a tag without `src` or `href` after one with a source makes the
      loop raise, so no later tag is downloaded. */
  lemma LaterBareTagRaises(site: Site, tags: seq<Tag>, j: nat, k: nat, fileName: string, head: string -> Option<string>)
    requires j < k < |tags| && Own(tags[j]).Some? && Own(tags[k]).None?
    ensures Fold(site, tags, fileName, head, false).failed
  {
    var upto := tags[..k + 1];
    assert upto[..k] == tags[..k];
    AttributeSticks(site, tags[..k], j, fileName, head);
    var before := Fold(site, tags[..k], fileName, head, false);
    if !before.failed {
      StepSpec(site, before, k, tags[k], fileName, head, false);
    }
    assert Fold(site, upto, fileName, head, false).failed;
    FoldFailed(site, tags, k + 1, fileName, head, false);
  }

  /** With the attribute reset for every tag, only a malformed content-type makes
      the loop raise; a tag without a source is passed over. */
  lemma {:induction false} ResetRaisesOnlyOnMalformed(site: Site, tags: seq<Tag>, fileName: string, head: string -> Option<string>)
    ensures Fold(site, tags, fileName, head, true).failed ==>
      exists k :: 0 <= k < |tags| && Own(tags[k]).Some? && Malformed(SourceUrl(site, Own(tags[k]).value), head)
    decreases |tags|
  {
    if tags != [] {
      var n := |tags|;
      var init := tags[..n - 1];
      ResetRaisesOnlyOnMalformed(site, init, fileName, head);
      var before := Fold(site, init, fileName, head, true);
      if !before.failed {
        StepSpec(site, before, n - 1, tags[n - 1], fileName, head, true);
        if Own(tags[n - 1]).Some? {
          VisitSpec(site, before.extension, SourceUrl(site, Own(tags[n - 1]).value), head);
        }
      }
      if Fold(site, init, fileName, head, true).failed {
        var k :| 0 <= k < |init| && Own(init[k]).Some? && Malformed(SourceUrl(site, Own(init[k]).value), head);
        assert init[k] == tags[k];
      }
    }
  }

  /** For example: a sourced tag, a bare one and another sourced tag, with no
      content-types at all. As written only the first source is downloaded; with
      the attribute reset both are. */
  lemma BareTagBetween(site: Site, a: string, b: string, fileName: string)
    ensures var tags := [Tag(Some(a), None, []), Tag(None, None, []), Tag(Some(b), None, [])];
      && Urls(Fold(site, tags, fileName, _ => None, false).downloads) == [SourceUrl(site, a)]
      && Urls(Fold(site, tags, fileName, _ => None, true).downloads) == [SourceUrl(site, a), SourceUrl(site, b)]
  {
    var tags := [Tag(Some(a), None, []), Tag(None, None, []), Tag(Some(b), None, [])];
    var head: string -> Option<string> := _ => None;
    var start := LoopState(None, "tmp", [], false);
    assert tags[..1] == [tags[0]] && tags[..2][..1] == [tags[0]] && [tags[0]][..0] == [];
    var first := Fold(site, [tags[0]], fileName, head, false);
    FoldOne(site, tags[0], fileName, head, false);
    VisitSpec(site, "tmp", SourceUrl(site, a), head);
    StepSpec(site, start, 0, tags[0], fileName, head, false);
    StepUrls(site, start, 0, tags[0], fileName, head, false);
    LaterBareTagRaises(site, tags, 0, 1, fileName, head);
    FoldFailed(site, tags, 2, fileName, head, false);
    assert Fold(site, tags[..2], fileName, head, false).downloads == first.downloads;
    ResetRaisesOnlyOnMalformed(site, tags, fileName, head);
    FoldUrls(site, tags, fileName, head, true);
    VisitSpec(site, "tmp", SourceUrl(site, b), head);
    assert Expected(site, tags[..1], head) == [SourceUrl(site, a)];
    assert Expected(site, tags[..2], head) == [SourceUrl(site, a)];
  }

  /** The loop over a single tag is one pass from the initial state. */
  lemma FoldOne(site: Site, tag: Tag, fileName: string, head: string -> Option<string>, reset: bool)
    ensures Fold(site, [tag], fileName, head, reset)
      == Step(site, LoopState(None, "tmp", [], false), 0, tag, fileName, head, reset)
  {
    assert [tag][..0] == [];
  }
}
