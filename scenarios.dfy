/** Worked pages: what the extractors give on small concrete pages. */
module Scenarios {
  import opened Results
  import opened Document
  import opened Extractors
  import opened Scraper

  /** A publication date longer than four characters keeps its last four;
      a shorter one is kept whole. */
  lemma YearSlices()
    ensures LastFour("Released on January 3, 2019") == "2019"
    ensures LastFour("19") == "19"
  {
  }

  function Img(attrs: map<string, string>): Node {
    Element("img", attrs, [])
  }

  /** Three screenshots, the second without a source: two URLs, in order. */
  lemma ScreenshotsSkipMissingSource()
    ensures ScreenshotUrls([
      Img(map["class" := "full-screenshot", "src" := "//a.png"]),
      Img(map["class" := "full-screenshot"]),
      Img(map["class" := "full-screenshot", "src" := "//c.png"])])
      == ["https://a.png", "https://c.png"]
  {
    var a := Img(map["class" := "full-screenshot", "src" := "//a.png"]);
    var b := Img(map["class" := "full-screenshot"]);
    var c := Img(map["class" := "full-screenshot", "src" := "//c.png"]);
    assert [a, b, c][..2] == [a, b];
    assert [a, b][..1] == [a];
    assert [a][..0] == [];
    assert HasSource(a) && !HasSource(b) && HasSource(c);
    assert ScreenshotUrls([a]) == [Scheme + "//a.png"];
    assert ScreenshotUrls([a, b]) == [Scheme + "//a.png"];
    assert ScreenshotUrls([a, b, c]) == [Scheme + "//a.png", Scheme + "//c.png"];
    assert Scheme + "//a.png" == "https://a.png";
    assert Scheme + "//c.png" == "https://c.png";
  }

  // A page with a title and two screenshots but no cover container.

  const ExampleTitle := Element("div", map["class" := "id-app-title"], [Text("Example App")])
  const ShotA := Img(map["class" := "full-screenshot", "src" := "/img/a.png"])
  const ShotB := Img(map["class" := "full-screenshot", "src" := "/img/b.png"])
  const ExamplePage := Element("[document]", map[], [ExampleTitle, ShotA, ShotB])

  lemma ExamplePageOrder()
    ensures Descendants(ExamplePage) == [ExampleTitle, Text("Example App"), ShotA, ShotB]
  {
    var text := Text("Example App");
    assert Descendants(ExampleTitle) == [text] by {
      assert DescendantsOfAll([text]) == [text] + [] + DescendantsOfAll([]);
    }
    assert DescendantsOfAll([ShotB]) == [ShotB];
    assert DescendantsOfAll([ShotA, ShotB]) == [ShotA, ShotB] by {
      assert [ShotA, ShotB][1..] == [ShotB];
    }
    var kids := [ExampleTitle, ShotA, ShotB];
    assert kids[1..] == [ShotA, ShotB];
    assert DescendantsOfAll(kids) == [ExampleTitle] + Descendants(ExampleTitle) + DescendantsOfAll([ShotA, ShotB]);
  }

  /** The title extractor finds the title text. */
  lemma ExamplePageTitle()
    ensures Title(ExamplePage) == Some("Example App")
  {
    ExamplePageOrder();
    var text := Text("Example App");
    assert TextOf(ExampleTitle) == "Example App" by {
      assert TextOfAll([text]) == "Example App" + TextOfAll([]);
    }
    var d := Descendants(ExamplePage);
    assert Matches(d[0], AppTitle);
    assert Select(d, AppTitle)[0] == ExampleTitle;
  }

  /** The screenshot extractor finds both images, in page order. */
  lemma ExamplePageScreenshots()
    ensures ScreenshotUrls(FindAll(ExamplePage, FullScreenshot)) == ["https:/img/a.png", "https:/img/b.png"]
  {
    ExamplePageOrder();
    var text := Text("Example App");
    var d := Descendants(ExamplePage);
    assert Select(d, FullScreenshot) == [ShotA, ShotB] by {
      assert d[1..] == [text, ShotA, ShotB];
      assert Select([ShotB], FullScreenshot) == [ShotB];
      assert Select([ShotA, ShotB], FullScreenshot) == [ShotA, ShotB] by {
        assert [ShotA, ShotB][1..] == [ShotB];
      }
      assert Select([text, ShotA, ShotB], FullScreenshot) == [ShotA, ShotB] by {
        assert [text, ShotA, ShotB][1..] == [ShotA, ShotB];
      }
    }
    assert Scheme + "/img/a.png" == "https:/img/a.png";
    assert Scheme + "/img/b.png" == "https:/img/b.png";
    assert [ShotA, ShotB][..1] == [ShotA];
    assert [ShotA][..0] == [];
    assert HasSource(ShotA) && HasSource(ShotB);
    assert ScreenshotUrls([ShotA]) == [Scheme + "/img/a.png"];
    assert ScreenshotUrls([ShotA, ShotB]) == [Scheme + "/img/a.png", Scheme + "/img/b.png"];
  }

  /** Without a cover container the cover extractor raises, so the whole
      extraction ends with that error even though the other fields exist. */
  lemma ExamplePageFails()
    ensures CoverImageOf(ExamplePage) == Err(UnboundLocal("cover_image"))
    ensures ExtractListing(ExamplePage) == Err(UnboundLocal("cover_image"))
  {
    ExamplePageOrder();
    assert NoMatch(Descendants(ExamplePage), CoverContainer);
  }
}
