/** The bookmarklet's page-side logic: where the API lives, which image,
    title and description it proposes, and the request it sends on save. */
module Bookmarklet {
  import opened Options
  import opened JsString

  // ---------------------------------------------------------------------
  // Locating the server

  const FallbackApiUrl := "http://do:9022"

  /** A script element the loader inserted: its src mentions the bookmarklet file. */
  predicate IsLoader(src: string) {
    Contains(src, "bookmarklet.js")
  }

  /** `getApiUrl`. `currentScript` is `document.currentScript?.src`, `scripts` the src of every
      `<script>` in document order (`""` for an inline one) and `origin` stands for
      `new URL(src).origin`. */
  method GetApiUrl(currentScript: Option<string>, scripts: seq<string>, origin: string -> string)
    returns (r: string)
    ensures Truthy(currentScript) ==> r == origin(currentScript.value)
    // otherwise the LAST loader script wins
    ensures !Truthy(currentScript) && (exists k :: 0 <= k < |scripts| && IsLoader(scripts[k])) ==>
      exists k :: && 0 <= k < |scripts| && IsLoader(scripts[k]) && r == origin(scripts[k])
                  && forall j :: k < j < |scripts| ==> !IsLoader(scripts[j])
    ensures !Truthy(currentScript) && (forall k :: 0 <= k < |scripts| ==> !IsLoader(scripts[k])) ==>
      r == FallbackApiUrl
  {
    if Truthy(currentScript) {
      return origin(currentScript.value);
    }
    var i := |scripts|;
    while i > 0
      invariant 0 <= i <= |scripts|
      invariant forall j :: i <= j < |scripts| ==> !IsLoader(scripts[j])
    {
      i := i - 1;
      if IsLoader(scripts[i]) {
        return origin(scripts[i]);
      }
    }
    return FallbackApiUrl;
  }

  // ---------------------------------------------------------------------
  // Image selection

  /** `isValidImageUrl`: the `data:` test in the source is subsumed by the `http` prefix test. */
  function IsValidImageUrl(url: Option<string>): (r: bool)
    ensures r <==> && Truthy(url)
                   && (StartsWith(url.value, "http://") || StartsWith(url.value, "https://"))
                   && !Contains(url.value, "about:blank")
                   && !Contains(url.value, "placeholder")
  {
    if !Truthy(url) then false
    else if StartsWith(url.value, "data:") then
      assert !StartsWith(url.value, "http://") && !StartsWith(url.value, "https://") by {
        StartsWithDiffer(url.value, "http://", 0);
        StartsWithDiffer(url.value, "https://", 0);
      }
      false
    else if Contains(url.value, "about:blank") then false
    else if Contains(url.value, "placeholder") then false
    else StartsWith(url.value, "http://") || StartsWith(url.value, "https://")
  }

  /** An `<img>`: its rendered size, its src (`""` when it has none) and its alt text. */
  datatype Img = Img(width: int, height: int, src: string, alt: string)

  /** The `images.find` test: large enough, a valid src that does not look like a logo,
      icon or avatar, and an alt text without "logo" in any case. */
  predicate Prominent(img: Img) {
    && img.width >= 200 && img.height >= 150
    && IsValidImageUrl(Some(img.src))
    && !Contains(img.src, "logo") && !Contains(img.src, "icon") && !Contains(img.src, "avatar")
    && !Contains(ToLower(img.alt), "logo")
  }

  /** `images.find(...)` from position `from`: the index of the first prominent image. */
  function FindProminent(imgs: seq<Img>, from: nat): (r: Option<nat>)
    requires from <= |imgs|
    decreases |imgs| - from
    ensures r.Some? ==> && from <= r.value < |imgs| && Prominent(imgs[r.value])
                        && forall j :: from <= j < r.value ==> !Prominent(imgs[j])
    ensures r.None? <==> forall j :: from <= j < |imgs| ==> !Prominent(imgs[j])
  {
    if from == |imgs| then None
    else if Prominent(imgs[from]) then Some(from)
    else FindProminent(imgs, from + 1)
  }

  /** The page as the bookmarklet reads it. An optional field is `None` when the element is
      missing and carries its `content` (possibly `""`) when it is present. */
  datatype ClientPage = ClientPage(
    href: string,
    documentTitle: string,
    ogTitle: Option<string>,
    ogDescription: Option<string>,
    metaDescription: Option<string>,
    ogImage: Option<string>,
    twitterImageByName: Option<string>,
    twitterImageByProperty: Option<string>,
    images: seq<Img>)

  /** The src of the first prominent image, if there is one. */
  function ProminentSrc(p: ClientPage): Option<string> {
    var k := FindProminent(p.images, 0);
    if k.Some? then Some(p.images[k.value].src) else None
  }

  /** The twitter:image the page offers: the `name` form, or the `property` form when the
      `name` form is missing or empty. */
  function TwitterImage(p: ClientPage): Option<string> {
    Or(p.twitterImageByName, p.twitterImageByProperty)
  }

  /** Reference definition of the image choice: the first valid candidate of a list. */
  function FirstValid(candidates: seq<Option<string>>): (r: string)
    ensures r == "" <==> forall i :: 0 <= i < |candidates| ==> !IsValidImageUrl(candidates[i])
    ensures r != "" ==> exists i :: && 0 <= i < |candidates| && candidates[i] == Some(r)
                                    && IsValidImageUrl(candidates[i])
  {
    if candidates == [] then ""
    else if IsValidImageUrl(candidates[0]) then candidates[0].value
    else FirstValid(candidates[1..])
  }

  /** The three strategies of `getMetadata`, each consulted only while no image is chosen. */
  function ImageUrl(p: ClientPage): (r: string)
    ensures r == "" || IsValidImageUrl(Some(r))
    ensures ProminentSrc(p).Some? ==> r == ProminentSrc(p).value
  {
    var chosen := if ProminentSrc(p).Some? && IsValidImageUrl(ProminentSrc(p)) then ProminentSrc(p).value else "";
    var chosen := if chosen == "" && IsValidImageUrl(p.ogImage) then p.ogImage.value else chosen;
    if chosen == "" && IsValidImageUrl(TwitterImage(p)) then TwitterImage(p).value else chosen
  }

  /** The image is the first valid one of: the prominent image, og:image, twitter:image. */
  lemma ImageUrlIsFirstValid(p: ClientPage)
    ensures ImageUrl(p) == FirstValid([ProminentSrc(p), p.ogImage, TwitterImage(p)])
  {
    var cs := [ProminentSrc(p), p.ogImage, TwitterImage(p)];
    assert cs[1..] == [p.ogImage, TwitterImage(p)];
    assert cs[1..][1..] == [TwitterImage(p)];
    assert cs[1..][1..][1..] == [];
    if ProminentSrc(p).Some? {
      assert Prominent(p.images[FindProminent(p.images, 0).value]);
      assert FirstValid(cs) == ProminentSrc(p).value;
    } else if IsValidImageUrl(p.ogImage) {
      assert FirstValid(cs) == FirstValid(cs[1..]) == p.ogImage.value;
    } else {
      assert FirstValid(cs) == FirstValid(cs[1..][1..]);
    }
  }

  /** A present but unusable twitter:image `name` tag hides a usable `property` tag. */
  lemma TwitterNameShadowsProperty(p: ClientPage)
    requires ProminentSrc(p).None? && !IsValidImageUrl(p.ogImage)
    requires Truthy(p.twitterImageByName) && !IsValidImageUrl(p.twitterImageByName)
    requires IsValidImageUrl(p.twitterImageByProperty)
    ensures ImageUrl(p) == ""
  {
  }

  // ---------------------------------------------------------------------
  // Metadata and the save request

  datatype ClientMetadata = ClientMetadata(url: string, title: string, description: string, imageUrl: string)

  const TitleLimit := 500
  const DescriptionLimit := 1000

  /** `ogTitle || document.title || ''`. */
  function FullTitle(p: ClientPage): (r: string)
    ensures Truthy(p.ogTitle) ==> r == p.ogTitle.value
    ensures !Truthy(p.ogTitle) ==> r == p.documentTitle
  {
    OrEmpty(Or(p.ogTitle, Some(p.documentTitle)))
  }

  /** `ogDesc || metaDesc || ''`. */
  function FullDescription(p: ClientPage): (r: string)
    ensures Truthy(p.ogDescription) ==> r == p.ogDescription.value
    ensures !Truthy(p.ogDescription) && Truthy(p.metaDescription) ==> r == p.metaDescription.value
    ensures !Truthy(p.ogDescription) && !Truthy(p.metaDescription) ==> r == ""
  {
    OrEmpty(Or(p.ogDescription, p.metaDescription))
  }

  /** `getMetadata`: the fallbacks above, cut to their length limits. */
  function GetMetadata(p: ClientPage): (r: ClientMetadata)
    ensures r.url == p.href
    ensures |r.title| <= TitleLimit && StartsWith(FullTitle(p), r.title)
    ensures |FullTitle(p)| <= TitleLimit ==> r.title == FullTitle(p)
    ensures |FullTitle(p)| > TitleLimit ==> |r.title| == TitleLimit
    ensures |r.description| <= DescriptionLimit && StartsWith(FullDescription(p), r.description)
    ensures |FullDescription(p)| <= DescriptionLimit ==> r.description == FullDescription(p)
    ensures |FullDescription(p)| > DescriptionLimit ==> |r.description| == DescriptionLimit
    ensures r.imageUrl == FirstValid([ProminentSrc(p), p.ogImage, TwitterImage(p)])
  {
    ImageUrlIsFirstValid(p);
    ClientMetadata(p.href, Take(FullTitle(p), TitleLimit), Take(FullDescription(p), DescriptionLimit), ImageUrl(p))
  }

  /** The JSON body of the save request. */
  datatype SaveRequest = SaveRequest(url: string, title: string, description: string, imageUrl: string, tags: Option<string>)

  /** A trimmed input, or the fallback when the input is blank. */
  function InputOr(input: string, fallback: string): (r: string)
    ensures Blank(input) ==> r == fallback
    ensures !Blank(input) ==> r == Trim(input) && r != "" && Trimmed(r) && Contains(input, r)
  {
    var t := Trim(input);
    if t != "" then t else fallback
  }

  /** The save handler's payload from the edited inputs. */
  function Payload(m: ClientMetadata, titleInput: string, descriptionInput: string, tagsInput: string)
    : (r: SaveRequest)
    ensures r.url == m.url && r.imageUrl == m.imageUrl
    ensures r.title == InputOr(titleInput, m.title)
    ensures r.description == InputOr(descriptionInput, m.description)
    ensures r.tags.None? <==> Blank(tagsInput)
    ensures r.tags.Some? ==> r.tags.value == Trim(tagsInput) && r.tags.value != "" && Trimmed(r.tags.value)
  {
    SaveRequest(m.url, InputOr(titleInput, m.title), InputOr(descriptionInput, m.description), m.imageUrl,
                Nullify(Some(Trim(tagsInput))))
  }
}
