/** The seven field extractors of the PlayStore scraper, each a selection
    rule over the page's elements in document order. */
module Extractors {
  import opened Results
  import opened Document

  // The markers the storefront page is searched for.
  const CoverContainer := Marker("div", "class", "cover-container")
  const CoverImage := Marker("img", "class", "cover-image")
  const DescriptionContainer := Marker("div", "class", "show-more-content text-body")
  const DescriptionText := Marker("div", "jsname", "C4s9Ed")
  const AppTitle := Marker("div", "class", "id-app-title")
  const Genre := Marker("span", "itemprop", "genre")
  const DatePublished := Marker("div", "itemprop", "datePublished")
  const OperatingSystems := Marker("div", "itemprop", "operatingSystems")
  const FullScreenshot := Marker("img", "class", "full-screenshot")

  /** The page leaves the scheme off its image URLs. */
  const Scheme := "https:"

  // ---------------------------------------------------------------------
  // First-match extractors: title, category, OS requirement, year

  /** `r` is the untrimmed text of the earliest element below `root` that
      matches `m`, or None when no element below `root` matches. */
  ghost predicate IsFirstText(root: Node, m: Marker, r: Option<string>) {
    var d := Descendants(root);
    && (r.None? <==> NoMatch(d, m))
    && (r.Some? ==> exists i :: IsFirstMatch(d, m, i) && r.value == TextOf(d[i]))
  }

  /** The text of the first element `find_all` returns, or None when it
      returns nothing. */
  function FirstText(root: Node, m: Marker): (r: Option<string>)
    ensures IsFirstText(root, m, r)
  {
    var found := FindAll(root, m);
    SelectEmpty(Descendants(root), m);
    if |found| > 0 then
      SelectFirst(Descendants(root), m);
      Some(TextOf(found[0]))
    else
      None
  }

  /** `_fetch_title` */
  function Title(doc: Node): (r: Option<string>)
    ensures IsFirstText(doc, AppTitle, r)
  {
    FirstText(doc, AppTitle)
  }

  /** `_fetch_category` */
  function Category(doc: Node): (r: Option<string>)
    ensures IsFirstText(doc, Genre, r)
  {
    FirstText(doc, Genre)
  }

  /** `_fetch_requirement` */
  function Requirement(doc: Node): (r: Option<string>)
    ensures IsFirstText(doc, OperatingSystems, r)
  {
    FirstText(doc, OperatingSystems)
  }

  /** `y` is what Python's `t[-4:]` gives: the last four characters of `t`,
      or all of `t` when it is shorter. */
  ghost predicate IsLastFour(t: string, y: string) {
    |y| == (if |t| < 4 then |t| else 4) && t[|t| - |y|..] == y
  }

  /** `t[-4:]` */
  function LastFour(t: string): (y: string)
    ensures IsLastFour(t, y)
  {
    if |t| < 4 then t else t[|t| - 4..]
  }

  /** `_fetch_year`: a fixed-width slice of the first publication date, not
      a date parse. */
  function Year(doc: Node): (r: Option<string>)
    ensures var d := Descendants(doc);
      && (r.None? <==> NoMatch(d, DatePublished))
      && (r.Some? ==> exists i :: IsFirstMatch(d, DatePublished, i) && IsLastFour(TextOf(d[i]), r.value))
  {
    match FirstText(doc, DatePublished)
    case None => None
    case Some(t) => Some(LastFour(t))
  }

  // ---------------------------------------------------------------------
  // Description

  /** `_fetch_description`: the first description node inside the FIRST
      expandable container; indexing an empty container list raises. */
  function Description(doc: Node): (r: Result<Option<string>>)
    ensures var d := Descendants(doc);
      && (r.Err? <==> NoMatch(d, DescriptionContainer))
      && (r.Err? ==> r.failure == IndexError)
      && (r.Ok? ==> exists i :: IsFirstMatch(d, DescriptionContainer, i) && IsFirstText(d[i], DescriptionText, r.value))
  {
    var containers := FindAll(doc, DescriptionContainer);
    SelectEmpty(Descendants(doc), DescriptionContainer);
    if |containers| == 0 then
      Err(IndexError)
    else
      SelectFirst(Descendants(doc), DescriptionContainer);
      Ok(FirstText(containers[0], DescriptionText))
  }

  // ---------------------------------------------------------------------
  // Cover image

  /** The cover image found in one container: `"https:" + src` of its first
      cover image, None when it has none, and a KeyError when that image has
      no `src` attribute. */
  function CoverOf(container: Node): (r: Result<Option<string>>)
    ensures var d := Descendants(container);
      && (r == Ok(None) <==> NoMatch(d, CoverImage))
      && (r.Err? ==> r.failure == KeyError("src"))
      && (!NoMatch(d, CoverImage) ==>
            exists i :: IsFirstMatch(d, CoverImage, i) &&
              r == if "src" in d[i].attrs then Ok(Some(Scheme + d[i].attrs["src"])) else Err(KeyError("src")))
  {
    var images := FindAll(container, CoverImage);
    SelectEmpty(Descendants(container), CoverImage);
    if |images| > 0 then
      SelectFirst(Descendants(container), CoverImage);
      var image := images[0];
      if "src" in image.attrs then Ok(Some(Scheme + image.attrs["src"])) else Err(KeyError("src"))
    else
      Ok(None)
  }

  /** What `_fetch_cover_image` returns: the cover of the LAST cover
      container, and an unbound-variable error when there is none. */
  function CoverImageOf(doc: Node): (r: Result<Option<string>>)
    ensures var d := Descendants(doc);
      && (NoMatch(d, CoverContainer) ==> r == Err(UnboundLocal("cover_image")))
      && (!NoMatch(d, CoverContainer) ==> exists i :: IsLastMatch(d, CoverContainer, i) && r == CoverOf(d[i]))
  {
    var containers := FindAll(doc, CoverContainer);
    SelectEmpty(Descendants(doc), CoverContainer);
    if |containers| == 0 then
      Err(UnboundLocal("cover_image"))
    else
      SelectLast(Descendants(doc), CoverContainer);
      CoverOf(containers[|containers| - 1])
  }

  /** `_fetch_cover_image`: every container's images are looked up in turn,
      and each lookup replaces the previous one. */
  method FetchCoverImage(doc: Node) returns (r: Result<Option<string>>)
    ensures r == CoverImageOf(doc)
  {
    var containers := FindAll(doc, CoverContainer);
    var coverImage: seq<Node> := [];
    var bound := false;
    for k := 0 to |containers|
      invariant bound <==> k > 0
      invariant bound ==> coverImage == FindAll(containers[k - 1], CoverImage)
    {
      coverImage := FindAll(containers[k], CoverImage);
      bound := true;
    }
    if !bound {
      return Err(UnboundLocal("cover_image"));
    }
    assert CoverImageOf(doc) == CoverOf(containers[|containers| - 1]);
    if |coverImage| > 0 {
      var image := coverImage[0];
      if "src" in image.attrs {
        r := Ok(Some(Scheme + image.attrs["src"]));
      } else {
        r := Err(KeyError("src"));
      }
    } else {
      r := Ok(None);
    }
  }

  // ---------------------------------------------------------------------
  // Screenshots

  /** The image has a `src` attribute, and it is not empty. */
  predicate HasSource(n: Node) {
    n.Element? && "src" in n.attrs && n.attrs["src"] != ""
  }

  /** The screenshot URLs of `imgs`, in order: `"https:" + src` of each
      image with a non-empty source. */
  function ScreenshotUrls(imgs: seq<Node>): (urls: seq<string>)
    ensures |urls| <= |imgs|
    ensures forall j :: 0 <= j < |urls| ==> Scheme <= urls[j]
  {
    if imgs == [] then []
    else
      var last := imgs[|imgs| - 1];
      ScreenshotUrls(imgs[..|imgs| - 1]) + (if HasSource(last) then [Scheme + last.attrs["src"]] else [])
  }

  /** `_fetch_screenshots` */
  method FetchScreenshots(doc: Node) returns (urls: seq<string>)
    ensures urls == ScreenshotUrls(FindAll(doc, FullScreenshot))
  {
    var imgContainers := FindAll(doc, FullScreenshot);
    urls := [];
    for k := 0 to |imgContainers|
      invariant urls == ScreenshotUrls(imgContainers[..k])
    {
      var i := imgContainers[k];
      var url := if "src" in i.attrs then Some(i.attrs["src"]) else None;
      if url.Some? && url.value != "" {
        urls := urls + [Scheme + url.value];
      }
      assert imgContainers[..k + 1][..k] == imgContainers[..k];
    }
    assert imgContainers[..|imgContainers|] == imgContainers;
  }

  /** The URLs keep the order of the images: those of a concatenation are
      those of each part in turn. */
  lemma {:induction false} ScreenshotUrlsAppend(a: seq<Node>, b: seq<Node>)
    ensures ScreenshotUrls(a + b) == ScreenshotUrls(a) + ScreenshotUrls(b)
  {
    if b != [] {
      assert (a + b)[..|a + b| - 1] == a + b[..|b| - 1];
      ScreenshotUrlsAppend(a, b[..|b| - 1]);
    } else {
      assert a + b == a;
    }
  }

  /** Never more URLs than images, and exactly as many when every image has
      a source. */
  lemma {:induction false} ScreenshotUrlsLength(imgs: seq<Node>)
    ensures |ScreenshotUrls(imgs)| <= |imgs|
    ensures |ScreenshotUrls(imgs)| == |imgs| <==> forall i :: 0 <= i < |imgs| ==> HasSource(imgs[i])
  {
    if imgs != [] {
      var init := imgs[..|imgs| - 1];
      ScreenshotUrlsLength(init);
      assert forall i :: 0 <= i < |init| ==> init[i] == imgs[i];
    }
  }

  /** A URL is in the result exactly when it is `"https:" + src` of an image
      with a non-empty source; images without one are dropped. */
  lemma {:induction false} ScreenshotUrlsMembers(imgs: seq<Node>, u: string)
    ensures u in ScreenshotUrls(imgs) <==>
      exists i :: 0 <= i < |imgs| && HasSource(imgs[i]) && u == Scheme + imgs[i].attrs["src"]
  {
    if imgs != [] {
      var init := imgs[..|imgs| - 1];
      ScreenshotUrlsMembers(init, u);
      assert forall i :: 0 <= i < |init| ==> init[i] == imgs[i];
      if u in ScreenshotUrls(imgs) && u !in ScreenshotUrls(init) {
        assert HasSource(imgs[|imgs| - 1]) && u == Scheme + imgs[|imgs| - 1].attrs["src"];
      }
    }
  }

  /** On a whole page: a URL is returned exactly when some `full-screenshot`
      image on the page has a non-empty source and the URL is `"https:"`
      followed by it. */
  lemma PageScreenshots(doc: Node, u: string)
    ensures u in ScreenshotUrls(FindAll(doc, FullScreenshot)) <==>
      exists x :: x in Descendants(doc) && Matches(x, FullScreenshot) && HasSource(x) && u == Scheme + x.attrs["src"]
  {
    var imgs := FindAll(doc, FullScreenshot);
    ScreenshotUrlsMembers(imgs, u);
    if u in ScreenshotUrls(imgs) {
      var i :| 0 <= i < |imgs| && HasSource(imgs[i]) && u == Scheme + imgs[i].attrs["src"];
      assert imgs[i] in imgs;
    } else {
      forall x | x in Descendants(doc) && Matches(x, FullScreenshot) && HasSource(x)
        ensures u != Scheme + x.attrs["src"]
      {
        assert x in imgs;
        var i :| 0 <= i < |imgs| && imgs[i] == x;
      }
    }
  }

  /** Document order is kept on a whole page: when the page's nodes split
      into an earlier part `a` and a later part `b`, the screenshots of `a`
      come first. */
  lemma {:induction false} PageScreenshotsInOrder(doc: Node, a: seq<Node>, b: seq<Node>)
    requires Descendants(doc) == a + b
    ensures ScreenshotUrls(FindAll(doc, FullScreenshot)) ==
      ScreenshotUrls(Select(a, FullScreenshot)) + ScreenshotUrls(Select(b, FullScreenshot))
  {
    SelectAppend(a, b, FullScreenshot);
    ScreenshotUrlsAppend(Select(a, FullScreenshot), Select(b, FullScreenshot));
  }
}
