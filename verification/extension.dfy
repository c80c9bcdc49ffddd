/** The browser extension's toolbar action: read the page's metadata in the
    tab, then open the server's save popup with it as query parameters. */
module Extension {
  import opened Options
  import opened JsString

  const QuickMarkUrl := "http://do:9022"
  const SavePath := "/save?"

  // ---------------------------------------------------------------------
  // The script run inside the page

  /** `getMetaContent`: the content of the first selector, in order, whose element exists
      with a non-empty content; `""` when there is none. A selector's entry is `None` when
      no element matches it. */
  function GetMetaContent(contents: seq<Option<string>>): (r: string)
    ensures r == "" <==> forall i :: 0 <= i < |contents| ==> !Truthy(contents[i])
    ensures r != "" ==> exists k :: && 0 <= k < |contents| && contents[k] == Some(r)
                                    && forall j :: 0 <= j < k ==> !Truthy(contents[j])
  {
    if contents == [] then ""
    else if Truthy(contents[0]) then contents[0].value
    else
      var r := GetMetaContent(contents[1..]);
      assert forall j :: 1 <= j < |contents| ==> contents[j] == contents[1..][j - 1];
      r
  }

  /** Two selectors behave like `a || b || ''`. */
  lemma GetMetaContentIsOr(a: Option<string>, b: Option<string>)
    ensures GetMetaContent([a, b]) == OrEmpty(Or(a, b))
  {
    assert [a, b][1..] == [b];
    assert [b][1..] == [];
  }

  /** What the page offers; `None` when the element is missing. */
  datatype TabPage = TabPage(
    documentTitle: string,
    ogTitle: Option<string>,
    ogDescription: Option<string>,
    metaDescription: Option<string>,
    ogImage: Option<string>,
    twitterImageByName: Option<string>,
    twitterImageByProperty: Option<string>)

  datatype PageMetadata = PageMetadata(title: string, description: string, image: string)

  /** `extractMetadata`, the function injected into the tab. */
  function ExtractMetadata(p: TabPage): (r: PageMetadata)
    ensures Truthy(p.ogTitle) ==> r.title == p.ogTitle.value
    ensures !Truthy(p.ogTitle) ==> r.title == p.documentTitle
    ensures r.description == OrEmpty(Or(p.ogDescription, p.metaDescription))
    ensures r.image == OrEmpty(Or(p.ogImage, Or(p.twitterImageByName, p.twitterImageByProperty)))
    ensures r.image == "" <==> !Truthy(p.ogImage) && !Truthy(p.twitterImageByName) && !Truthy(p.twitterImageByProperty)
    ensures Truthy(p.ogImage) ==> r.image == p.ogImage.value
    ensures !Truthy(p.ogImage) && Truthy(p.twitterImageByName) ==> r.image == p.twitterImageByName.value
    ensures !Truthy(p.ogImage) && !Truthy(p.twitterImageByName) && Truthy(p.twitterImageByProperty) ==>
      r.image == p.twitterImageByProperty.value
  {
    var ogTitle := GetMetaContent([p.ogTitle]);
    GetMetaContentIsOr(p.ogDescription, p.metaDescription);
    var image := GetMetaContent([p.ogImage, p.twitterImageByName, p.twitterImageByProperty]);
    assert [p.ogImage, p.twitterImageByName, p.twitterImageByProperty][1..] == [p.twitterImageByName, p.twitterImageByProperty];
    GetMetaContentIsOr(p.twitterImageByName, p.twitterImageByProperty);
    assert image == OrEmpty(Or(p.ogImage, Or(p.twitterImageByName, p.twitterImageByProperty)));
    PageMetadata(
      if ogTitle != "" then ogTitle else p.documentTitle,
      GetMetaContent([p.ogDescription, p.metaDescription]),
      image)
  }

  // ---------------------------------------------------------------------
  // The click handler

  /** The tab as the click listener receives it. */
  datatype Tab = Tab(id: Option<int>, url: Option<string>, title: Option<string>)

  /** Browser-internal pages the extension cannot script. */
  predicate Internal(url: string) {
    StartsWith(url, "chrome://") || StartsWith(url, "chrome-extension://")
  }

  /** The guard: a truthy id (0 is falsy), a non-empty url, not an internal page. */
  predicate Handled(tab: Tab) {
    && tab.id.Some? && tab.id.value != 0
    && Truthy(tab.url)
    && !Internal(tab.url.value)
  }

  /** The result of `executeScript`: it threw, or it returned the first frame's result
      (`None` when that result is missing). */
  datatype Injection = Threw | Returned(result: Option<PageMetadata>)

  type Params = seq<(string, string)>

  /** The query parameters of the save popup. */
  function PopupParams(tab: Tab, injection: Injection): (r: Params)
    requires Handled(tab)
    // extraction failed: only the url and the tab's title
    ensures injection.Threw? ==> r == [("url", tab.url.value), ("title", OrEmpty(tab.title))]
    // extraction ran: the four fields, each falling back to the tab or to ""
    ensures injection.Returned? ==>
      && |r| == 4 && r[0] == ("url", tab.url.value)
      && r[1].0 == "title" && r[2].0 == "description" && r[3].0 == "image_url"
      && (injection.result.Some? && injection.result.value.title != "" ==> r[1].1 == injection.result.value.title)
      && (injection.result.None? || injection.result.value.title == "" ==> r[1].1 == OrEmpty(tab.title))
      && r[2].1 == (if injection.result.Some? then injection.result.value.description else "")
      && r[3].1 == (if injection.result.Some? then injection.result.value.image else "")
  {
    match injection
    case Threw => [("url", OrEmpty(tab.url)), ("title", OrEmpty(tab.title))]
    case Returned(result) =>
      var title := if result.Some? then Some(result.value.title) else None;
      var description := if result.Some? then Some(result.value.description) else None;
      var image := if result.Some? then Some(result.value.image) else None;
      [ ("url", OrEmpty(tab.url)),
        ("title", OrEmpty(Or(title, tab.title))),
        ("description", OrEmpty(description)),
        ("image_url", OrEmpty(image)) ]
  }

  /** The popup the click opens: nothing for an unhandled tab, otherwise the save page with
      the parameters. `encode` stands for `URLSearchParams.toString`. */
  function OnClicked(tab: Tab, injection: Injection, encode: Params -> string): (r: Option<string>)
    ensures r.None? <==> !Handled(tab)
    ensures r.Some? ==> StartsWith(r.value, QuickMarkUrl + SavePath)
    ensures r.Some? ==> r.value[|QuickMarkUrl + SavePath|..] == encode(PopupParams(tab, injection))
  {
    if !Handled(tab) then None
    else
      var url := QuickMarkUrl + SavePath + encode(PopupParams(tab, injection));
      StartsWithAppend(QuickMarkUrl + SavePath, encode(PopupParams(tab, injection)));
      Some(url)
  }

  /** End to end, the popup's title is og:title, else the document title, else the tab's
      title, else "". */
  lemma {:induction false} PopupTitleFallback(tab: Tab, p: TabPage)
    requires Handled(tab)
    ensures var title := PopupParams(tab, Returned(Some(ExtractMetadata(p))))[1].1;
      && (Truthy(p.ogTitle) ==> title == p.ogTitle.value)
      && (!Truthy(p.ogTitle) && p.documentTitle != "" ==> title == p.documentTitle)
      && (!Truthy(p.ogTitle) && p.documentTitle == "" ==> title == OrEmpty(tab.title))
  {
  }
}
