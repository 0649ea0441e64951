/** The `PlayStore` object: a validated package name and the fields that
    `_parse_soup` fills in from the storefront page. */
module Scraper {
  import opened Results
  import opened PackageName
  import opened Document
  import opened Extractors
  import opened Decimal

  /** The only HTTP status `_fetch_url_content` goes on with. */
  const HttpOk := 200

  /** What fetching the storefront URL and parsing the reply produced: the
      HTTP status with the parsed page, or an exception from either step. */
  datatype PageResponse = Response(status: int, page: Node) | Raised

  /** Everything the extractors found on one page. */
  datatype Listing = Listing(
    coverImage: Option<string>,
    description: Option<string>,
    screenshots: seq<string>,
    title: Option<string>,
    category: Option<string>,
    year: Option<string>,
    requirement: Option<string>)

  /** The seven extractors in the order `_parse_soup` runs them; the first
      exception ends the run, so a cover failure wins over a description
      failure, and the other five never fail. */
  function ExtractListing(doc: Node): (r: Result<Listing>)
    ensures CoverImageOf(doc).Err? ==> r == Err(CoverImageOf(doc).failure)
    ensures CoverImageOf(doc).Ok? && Description(doc).Err? ==> r == Err(Description(doc).failure)
    ensures r.Ok? <==> CoverImageOf(doc).Ok? && Description(doc).Ok?
    ensures r.Ok? ==>
      && r.value.coverImage == CoverImageOf(doc).value
      && r.value.description == Description(doc).value
      && r.value.screenshots == ScreenshotUrls(FindAll(doc, FullScreenshot))
      && r.value.title == Title(doc)
      && r.value.category == Category(doc)
      && r.value.year == Year(doc)
      && r.value.requirement == Requirement(doc)
  {
    var cover :- CoverImageOf(doc);
    var description :- Description(doc);
    Ok(Listing(cover, description, ScreenshotUrls(FindAll(doc, FullScreenshot)),
               Title(doc), Category(doc), Year(doc), Requirement(doc)))
  }

  /** What the page must look like for each outcome: no cover container
      gives the unbound-variable error, a cover but no description container
      gives IndexError, only those two extractors can fail, and a listing
      holds what each extractor finds on the page. */
  lemma ExtractListingOutcome(doc: Node)
    ensures var d := Descendants(doc);
      && (NoMatch(d, CoverContainer) ==> ExtractListing(doc) == Err(UnboundLocal("cover_image")))
      && (CoverImageOf(doc).Err? ==> ExtractListing(doc) == Err(CoverImageOf(doc).failure))
      && (CoverImageOf(doc).Ok? && NoMatch(d, DescriptionContainer) ==> ExtractListing(doc) == Err(IndexError))
      && (ExtractListing(doc).Err? ==> CoverImageOf(doc).Err? || NoMatch(d, DescriptionContainer))
      && (ExtractListing(doc).Ok? ==>
            var l := ExtractListing(doc).value;
            && l.coverImage == CoverImageOf(doc).value
            && l.description == Description(doc).value
            && l.screenshots == ScreenshotUrls(FindAll(doc, FullScreenshot))
            && l.year == Year(doc)
            && IsFirstText(doc, AppTitle, l.title)
            && IsFirstText(doc, Genre, l.category)
            && IsFirstText(doc, OperatingSystems, l.requirement)
            && |l.screenshots| <= |FindAll(doc, FullScreenshot)|)
  {
  }

  /** One `urlretrieve` the scraper asks for: what to fetch, where to save it. */
  datatype Download = Download(url: string, path: string)

  /** `_download_and_save`'s target file: `<folder>/<name>.png`. */
  function SavePath(folder: string, name: string): (p: string)
    ensures |p| == |folder| + 1 + |name| + 4
    ensures p[..|folder| + 1] == folder + "/"
    ensures p[|folder| + 1..|folder| + 1 + |name|] == name
    ensures p[|p| - 4..] == ".png"
  {
    folder + "/" + name + ".png"
  }

  /** `"s" + str(i)`: the file name of the i-th screenshot. */
  function ScreenshotName(i: nat): string {
    "s" + DecimalString(i)
  }

  /** Screenshots are saved under pairwise distinct paths. */
  lemma ScreenshotPathsDistinct(folder: string, i: nat, j: nat)
    ensures SavePath(folder, ScreenshotName(i)) == SavePath(folder, ScreenshotName(j)) ==> i == j
  {
    var a, b := DecimalString(i), DecimalString(j);
    var pi, pj := SavePath(folder, ScreenshotName(i)), SavePath(folder, ScreenshotName(j));
    var start := |folder| + 2;
    assert pi == folder + "/s" + a + ".png";
    assert pj == folder + "/s" + b + ".png";
    if pi == pj {
      assert |a| == |b|;
      assert pi[start..start + |a|] == a;
      assert pj[start..start + |b|] == b;
      DecimalStringInjective(i, j);
    }
  }

  class PlayStore {
    const packageName: string
    var coverImage: Option<string>
    var description: Option<string>
    var screenshots: Option<seq<string>>
    var title: Option<string>
    var category: Option<string>
    var year: Option<string>
    var requirement: Option<string>

    /** The package name passed the validator. */
    ghost predicate Valid() {
      Validate(packageName)
    }

    /** No page has been parsed yet. */
    ghost predicate Unparsed()
      reads this
    {
      && coverImage.None? && description.None? && screenshots.None?
      && title.None? && category.None? && year.None? && requirement.None?
    }

    /** The fields hold `l`. */
    ghost predicate Holds(l: Listing)
      reads this
    {
      && coverImage == l.coverImage
      && description == l.description
      && screenshots == Some(l.screenshots)
      && title == l.title
      && category == l.category
      && year == l.year
      && requirement == l.requirement
    }

    constructor (packageName: string)
      requires Validate(packageName)
      ensures Valid() && this.packageName == packageName && Unparsed()
    {
      this.packageName := packageName;
      coverImage, description, screenshots := None, None, None;
      title, category, year, requirement := None, None, None, None;
    }

    /** The seven assignments at the end of `_parse_soup`. */
    method Store(l: Listing)
      modifies this
      ensures Holds(l)
    {
      coverImage, description, screenshots := l.coverImage, l.description, Some(l.screenshots);
      title, category, year, requirement := l.title, l.category, l.year, l.requirement;
    }

    /** `_parse_soup` without its `write_to_disk` branch: a failed fetch
        exits with status 1, an extractor exception ends the run before any
        field is written, and otherwise every field takes what its extractor
        found. */
    method ParseSoup(response: PageResponse) returns (outcome: Result<()>)
      requires Valid()
      modifies this
      ensures Valid()
      ensures response.Raised? || response.status != HttpOk ==> outcome == Err(Exit(1)) && unchanged(this)
      ensures response.Response? && response.status == HttpOk && ExtractListing(response.page).Err? ==>
        outcome == Err(ExtractListing(response.page).failure) && unchanged(this)
      ensures response.Response? && response.status == HttpOk && ExtractListing(response.page).Ok? ==>
        outcome == Ok(()) && Holds(ExtractListing(response.page).value)
    {
      if response.Raised? || response.status != HttpOk {
        return Err(Exit(1));
      }
      var soup := response.page;
      var cover := FetchCoverImage(soup);
      if cover.Err? {
        assert ExtractListing(soup) == Err(cover.failure);
        return Err(cover.failure);
      }
      var desc := Description(soup);
      if desc.Err? {
        assert ExtractListing(soup) == Err(desc.failure);
        return Err(desc.failure);
      }
      var shots := FetchScreenshots(soup);
      var found := Listing(cover.value, desc.value, shots,
        Title(soup), Category(soup), Year(soup), Requirement(soup));
      assert ExtractListing(soup) == Ok(found);
      Store(found);
      outcome := Ok(());
    }

    /** `_save_screenshots`: the downloads it asks for, one per screenshot in
        list order, saved as `s0.png`, `s1.png`, ... in the package's folder.
        Iterating a list that was never filled in raises a TypeError. */
    method SaveScreenshots() returns (r: Result<seq<Download>>)
      ensures screenshots.None? ==> r == Err(TypeError)
      ensures screenshots.Some? ==> r.Ok? && |r.value| == |screenshots.value|
      ensures screenshots.Some? ==> forall k :: 0 <= k < |r.value| ==>
        r.value[k] == Download(screenshots.value[k], SavePath(packageName, ScreenshotName(k)))
    {
      if screenshots.None? {
        return Err(TypeError);
      }
      var shots := screenshots.value;
      var downloads: seq<Download> := [];
      var i := 0;
      for k := 0 to |shots|
        invariant i == k == |downloads|
        invariant forall j :: 0 <= j < k ==> downloads[j] == Download(shots[j], SavePath(packageName, ScreenshotName(j)))
      {
        downloads := downloads + [Download(shots[k], SavePath(packageName, "s" + DecimalString(i)))];
        i := i + 1;
      }
      r := Ok(downloads);
    }
  }

  /** `PlayStore(package_name)`: an invalid name exits with status 1. */
  method Open(packageName: string) returns (r: Result<PlayStore>)
    ensures r.Err? <==> !Validate(packageName)
    ensures r.Err? ==> r.failure == Exit(1)
    ensures r.Ok? ==> fresh(r.value) && r.value.Valid() && r.value.packageName == packageName && r.value.Unparsed()
  {
    if Validate(packageName) {
      var store := new PlayStore(packageName);
      r := Ok(store);
    } else {
      r := Err(Exit(1));
    }
  }
}
