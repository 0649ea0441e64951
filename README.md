# PlayStore scraper, modelled in Dafny

A model of the `PlayStore` class in `scraper.py`. The class takes an Android package name and checks it against a regular expression. It builds the Google Play details URL for that name, fetches and parses the page, and pulls seven fields out of the parsed page: cover image, description, screenshots, title, category, release year and OS requirement. With `write_to_disk` it also saves the screenshots as `s0.png`, `s1.png`, … in a folder named after the package.

Modules, one per component:

- `Results` (results.dfy): `Option` (Python's `None`), `Result`, and `Failure`. A `Failure` is either `Exit(code)` for `sys.exit` or one of the Python exceptions the source can raise.
- `PackageName` (package_name.dfy): `_validate_play_store_package_name`. The regular expression is modelled as a three-state scanner. `re.match` anchors it at the start of the string. Python's `$` holds at the end of the string or just before one final newline. Two independent grammars are proved to accept the same names: dot-separated segments (`Split`/`Join`) and a character-level shape (`WellShaped`).
- `StoreUrl` (store_url.dfy): `_generate_play_store_url`, with the inverse that strips the fixed prefix and suffix.
- `Document` (document.dfy): the parsed page as a tree of `Text` and `Element` nodes. `find_all` is a filter over the descendants in document order (preorder), plus lemmas on the first and last match.
- `Extractors` (extractors.dfy): the seven `_fetch_*` extractors. `_fetch_cover_image` and `_fetch_screenshots` keep their loops, as methods proved against specification functions.
- `Decimal` (decimal.dfy): `str(i)` for the screenshot file names, with its inverse.
- `Scraper` (play_store.dfy): the `PlayStore` object. Its fields are updated in place by `ParseSoup`. `Open` models the initialiser, and `SaveScreenshots` models the naming loop of `_save_screenshots`.
- `Scenarios` (scenarios.dfy): small concrete pages and what the extractors give on them.

Behaviour of the code that the model keeps as it is:

- The validator also accepts a valid name followed by one `"\n"`, because of `re.match` plus `$`.
- A page with no `cover-container` raises an unbound-variable error, because `cover_image` is never assigned. A first cover image without `src` raises `KeyError`. A page with no `show-more-content text-body` container raises `IndexError`. Each of these ends `_parse_soup` before any field is written (`Scenarios.ExamplePageFails`).
- The year is `text[-4:]`, so a text shorter than four characters is kept whole.

## Model

| member | source | states |
|---|---|---|
| `PackageName.Validate` | scraper.py:32-35 | accepts `p` iff some prefix of `p` matches the pattern and `$` holds right after it; equivalently iff `p` is dot-joined segments, or such a name plus one final `"\n"` |
| `PackageName.ScanAgreesWithSplit` | scraper.py:34 | the pattern matches a whole string iff every piece of `s.split('.')` is a segment `[A-Za-z_][A-Za-z0-9_]*` |
| `PackageName.ScanAgreesWithShape` | scraper.py:34 | the pattern matches a whole string iff it is non-empty, starts with `[A-Za-z_]`, does not end with a dot, uses only `[A-Za-z0-9_.]`, and every dot is followed by `[A-Za-z_]` |
| `PackageName.DollarMatchesNamePart` | scraper.py:34-35 | `$` after the pattern holds either at the end of the string or before one final newline, and in no other place |
| `PackageName.ValidateIffShape` | scraper.py:32-35 | the validator accepts `p` iff `p` without one final newline has the character-level shape |
| `PackageName.ValidateRejects` | scraper.py:32-35 | rejects empty input; a first character that cannot start a segment (dot, digit, other); a trailing dot; two consecutive dots; a digit after a dot; and any character outside `[A-Za-z0-9_.]` other than one final newline |
| `PackageName.JoinIsPackageName` | scraper.py:34 | one or more segments joined with single dots form a package name |
| `PackageName.ValidateAcceptsJoin` | scraper.py:34-35 | every join of one or more segments with single dots is accepted, with and without one trailing newline |
| `PackageName.ValidateSplits` | scraper.py:34-35 | whatever is accepted is such a join (its pieces are all segments and rejoin to the name), followed by nothing or by exactly one newline |
| `StoreUrl.PlayStoreUrl` | scraper.py:37-42 | the URL has the fixed prefix and the `&hl=en` suffix around the name; stripping them gives the name back |
| `StoreUrl.PackageNameOfInverts` | scraper.py:42 | a URL that strips to a name is exactly the URL built from that name |
| `StoreUrl.PlayStoreUrlInjective` | scraper.py:42 | distinct package names give distinct URLs |
| `StoreUrl.AcceptedNameIdValue` | scraper.py:40-42 | for an accepted name, the `id=` value read up to the next `&` is exactly the name, and that `&` opens `hl=en` |
| `Document.Select` | scraper.py:103 | `find_all` returns at most as many nodes as it scans, each one carries the marker and is one of the scanned nodes |
| `Document.SelectMembers` | scraper.py:103 | a node is in the match list iff it is one of the scanned nodes and carries the marker |
| `Document.SelectAppend` | scraper.py:103-105 | the match list keeps document order: the matches of a concatenation are those of the first part followed by those of the second |
| `Document.FindAll` | scraper.py:103 | `n.find_all(...)` holds exactly the nodes strictly below `n` that carry the marker |
| `Document.TextOfCollectsText` | scraper.py:118 | `.text` of an element is the contents of every text node below it, in document order, concatenated; `.text` of a text node is its contents |
| `Document.SelectEmpty` | scraper.py:127 | the match list is empty iff no node below carries the marker |
| `Document.SelectFirst` | scraper.py:128 | element `[0]` of the match list is the earliest matching node in document order |
| `Document.SelectLast` | scraper.py:104-105 | the last element of the match list is the latest matching node in document order |
| `Extractors.FirstText` | scraper.py:126-131 | the untrimmed text of the earliest matching element, and None iff nothing matches |
| `Extractors.Title` | scraper.py:123-131 | the text of the first `div.id-app-title`, None iff there is none |
| `Extractors.Category` | scraper.py:133-141 | the text of the first `span[itemprop=genre]`, None iff there is none |
| `Extractors.Requirement` | scraper.py:153-161 | the text of the first `div[itemprop=operatingSystems]`, None iff there is none |
| `Extractors.LastFour` | scraper.py:148 | `t[-4:]`: the suffix of `t` of length `min(4, len(t))` |
| `Extractors.Year` | scraper.py:143-151 | the last `min(4, len)` characters of the first `datePublished` element's text, None iff there is none |
| `Extractors.Description` | scraper.py:112-121 | IndexError iff no `show-more-content text-body` container exists; otherwise the first `C4s9Ed` text inside the FIRST container, None iff it has none |
| `Extractors.CoverOf` | scraper.py:106-110 | `"https:" + src` of a container's first cover image, None iff it has none, KeyError when that image lacks `src` |
| `Extractors.CoverImageOf` | scraper.py:100-110 | an unbound-variable error iff there is no cover container; otherwise the cover of the LAST container in document order |
| `Extractors.FetchCoverImage` | scraper.py:103-110 | the loop that reassigns `cover_image` for each container returns exactly `CoverImageOf` |
| `Extractors.ScreenshotUrls` | scraper.py:166-171 | never more URLs than images, and every URL starts with `"https:"` |
| `Extractors.FetchScreenshots` | scraper.py:163-171 | the append loop returns exactly the screenshot URLs of the `full-screenshot` images, in order |
| `Extractors.ScreenshotUrlsAppend` | scraper.py:167-171 | document order is kept: the URLs of a concatenation are those of each part in turn |
| `Extractors.ScreenshotUrlsLength` | scraper.py:167-171 | never more URLs than images, and as many iff every image has a non-empty source |
| `Extractors.ScreenshotUrlsMembers` | scraper.py:169-170 | a URL is returned iff it is `"https:" + src` of an image whose `src` is present and non-empty |
| `Extractors.PageScreenshots` | scraper.py:163-171 | on a whole page, a URL is returned iff some `full-screenshot` image on the page has a present, non-empty `src` and the URL is `"https:"` followed by it |
| `Extractors.PageScreenshotsInOrder` | scraper.py:166-171 | when the page splits into an earlier and a later part, the URLs of the earlier part's screenshots come first |
| `Decimal.DecimalString` | scraper.py:199 | `str(i)` is a non-empty string of digits with no leading zero unless `i` is 0 |
| `Decimal.DecimalRoundTrip` | scraper.py:199 | reading back `str(i)` as a decimal gives `i` |
| `Decimal.DecimalStringInjective` | scraper.py:199 | distinct indices give distinct `str(i)` |
| `Scraper.ExtractListing` | scraper.py:72-79 | the extractors run in order and the first exception wins: a cover failure is returned as is, a description failure only when the cover succeeded; a listing exists iff both succeed, and then each field is its extractor's result |
| `Scraper.ExtractListingOutcome` | scraper.py:72-79 | in terms of the page: no cover container gives the unbound-variable error, any cover failure is returned as is, a cover but no description container gives IndexError, and nothing else fails; a listing's cover, description, screenshots and year are the extractors' results, and its title, category and requirement are the text of the first matching element |
| `Scraper.SavePath` | scraper.py:187-189 | the path is the folder, a `/`, the file name and `.png`, in that order and nothing else |
| `Scraper.ScreenshotPathsDistinct` | scraper.py:187-200 | the screenshot files `<package>/s<i>.png` are pairwise distinct |
| `Scraper.PlayStore.constructor` | scraper.py:13-22 | a store built from a valid name keeps that name and starts with every field None |
| `Scraper.Open` | scraper.py:13-29 | an invalid name exits with status 1; a valid one gives a fresh store holding that name |
| `Scraper.PlayStore.Store` | scraper.py:81-87 | after the seven assignments the fields hold the listing |
| `Scraper.PlayStore.ParseSoup` | scraper.py:44-87 | a raised fetch or a status other than 200 exits with status 1 and changes nothing; an extractor exception is returned and changes nothing; otherwise every field holds its extractor's value |
| `Scraper.PlayStore.SaveScreenshots` | scraper.py:195-200 | one download per screenshot, in list order, the k-th saved as `<package>/s<k>.png`; iterating an unset list raises TypeError |
| `Scenarios.YearSlices` | scraper.py:148 | `"Released on January 3, 2019"` gives `"2019"`; `"19"` is kept whole |
| `Scenarios.ScreenshotsSkipMissingSource` | scraper.py:166-171 | three screenshots, the second without `src`, give two URLs in their original order |
| `Scenarios.ExamplePageTitle` | scraper.py:126-128 | on a page with a title element, the title is its text |
| `Scenarios.ExamplePageScreenshots` | scraper.py:166-171 | on that page the two screenshots give `https:/img/a.png`, `https:/img/b.png` |
| `Scenarios.ExamplePageFails` | scraper.py:103-106 | on that page, which has no cover container, the extraction ends with the unbound-variable error |

## Left out

- The HTTP fetch (`urllib.urlopen`), the status check's print and `read()`, and the BeautifulSoup parse (scraper.py:44-67) are external. `PageResponse` stands for their outcome: a status with the parsed page, or an exception.
- BeautifulSoup's multi-valued `class` matching is not modelled. A marker matches an element whose attribute value equals the marker's value exactly, so an element with several classes matches only the marker equal to its whole class string.
- `.text` is the concatenation of the text nodes below an element. Comments, CDATA and other node kinds of the parser are not modelled.
- `_setup_folder`, `_save_cover_image`, `_save_description` and the downloads themselves (scraper.py:173-193, 202-206) are filesystem and network I/O. `SaveScreenshots` returns the downloads it would request instead of performing them. The model therefore does not capture that `_parse_soup` calls `_save_cover_image` and `_save_description` even when the cover or description is None.
- Scraper.PlayStore.ParseSoup: the `write_to_disk` branch (scraper.py:90-94) is not part of it; the screenshot naming of that branch is `SaveScreenshots`.
- `print` diagnostics are left out. `sys.exit(1)` is modelled as the `Exit(1)` failure, not as ending the process.
- Python's `_title`, `_category`, `_year` and `_requirement` do not exist until `_parse_soup` assigns them. The model starts them at None.
- The model works on Dafny strings of characters. Python 2's `str`/`unicode` distinction and the UTF-8 encoding of the description file are not modelled.
- setup.py is packaging metadata and is not part of this model.
