/** The storefront URL for a package name (`_generate_play_store_url`). */
module StoreUrl {
  import opened Results
  import opened PackageName

  const UrlPrefix: string := "https://play.google.com/store/apps/details?id="
  /** Asks the storefront for its English page. */
  const UrlSuffix: string := "&hl=en"

  /** The details page of `packageName`. */
  function PlayStoreUrl(packageName: string): (url: string)
    ensures |url| == |UrlPrefix| + |packageName| + |UrlSuffix|
    ensures PackageNameOf(url) == Some(packageName)
  {
    var url := UrlPrefix + packageName + UrlSuffix;
    assert url[..|UrlPrefix|] == UrlPrefix;
    assert url[|url| - |UrlSuffix|..] == UrlSuffix;
    assert url[|UrlPrefix|..|url| - |UrlSuffix|] == packageName;
    url
  }

  /** The package name a details URL asks for: the URL without the fixed
      prefix and suffix, or None when it is not such a URL. */
  function PackageNameOf(url: string): (r: Option<string>)
  {
    if |url| >= |UrlPrefix| + |UrlSuffix|
       && url[..|UrlPrefix|] == UrlPrefix
       && url[|url| - |UrlSuffix|..] == UrlSuffix
    then Some(url[|UrlPrefix|..|url| - |UrlSuffix|])
    else None
  }

  /** Only details URLs have a package name, and it rebuilds the same URL. */
  lemma PackageNameOfInverts(url: string)
    ensures PackageNameOf(url).Some? ==> PlayStoreUrl(PackageNameOf(url).value) == url
  {
    if PackageNameOf(url).Some? {
      var n := PackageNameOf(url).value;
      assert url == url[..|UrlPrefix|] + n + url[|url| - |UrlSuffix|..];
    }
  }

  /** Distinct package names give distinct URLs. */
  lemma PlayStoreUrlInjective(a: string, b: string)
    ensures PlayStoreUrl(a) == PlayStoreUrl(b) ==> a == b
  {
    assert PackageNameOf(PlayStoreUrl(a)) == Some(a);
    assert PackageNameOf(PlayStoreUrl(b)) == Some(b);
  }

  /** For an accepted package name, the `id=` value read up to the next `&`
      (the one that opens `hl=en`) is exactly the package name. */
  lemma AcceptedNameIdValue(packageName: string)
    requires Validate(packageName)
    ensures var url := PlayStoreUrl(packageName);
      && url[|UrlPrefix|..] == packageName + UrlSuffix
      && url[|UrlPrefix| + |packageName|] == '&'
      && forall i :: |UrlPrefix| <= i < |UrlPrefix| + |packageName| ==> url[i] != '&'
  {
    ValidateIffShape(packageName);
    var n := NamePart(packageName);
    var url := PlayStoreUrl(packageName);
    assert url == UrlPrefix + packageName + UrlSuffix;
    assert url[|UrlPrefix|..] == packageName + UrlSuffix;
    forall i | |UrlPrefix| <= i < |UrlPrefix| + |packageName| ensures url[i] != '&' {
      var j := i - |UrlPrefix|;
      assert url[i] == packageName[j];
      if j < |n| { assert packageName[j] == n[j]; }
    }
  }
}
