/** Server-side metadata extraction (`extractMetadata` and `extractFavicon`):
    a best-effort record for a URL, where every failure after the URL has
    parsed degrades a field instead of failing the call.

    The network, the HTML parser and the URL parser are parameters: a `Web`
    value answers `new URL(...)`, resolves references against a base, gives
    the outcome of each fetch, and says whether an asset file can be written. */
module Metadata {
  import opened Options
  import opened JsString
  import opened BookmarkStore

  /** What the parsed document answers to the selectors `extractMetadata` and
      `extractFavicon` use: the attribute (or text) of the first matching element,
      absent when no element matches or the attribute is missing. */
  datatype Page = Page(
    ogTitle: Option<string>,            // meta[property="og:title"] content
    titleText: Option<string>,          // <title> text
    ogDescription: Option<string>,      // meta[property="og:description"] content
    metaDescription: Option<string>,    // meta[name="description"] content
    ogImage: Option<string>,            // meta[property="og:image"] content
    iconHref: Option<string>,           // link[rel="icon"] href
    shortcutIconHref: Option<string>,   // link[rel="shortcut icon"] href
    appleTouchIconHref: Option<string>) // link[rel="apple-touch-icon"] href

  /** A parsed URL: `href` is its serialisation, `hostname` its host. */
  datatype Url = Url(href: string, hostname: string)

  /** The outcome of a fetch: a 2xx body, a non-2xx response, or a thrown error
      (network failure, timeout abort, unreadable body or unparsable document). */
  datatype Response<T> = Ok(body: T) | NotOk | Threw

  type Bytes = seq<bv8>

  datatype Web = Web(
    parseUrl: string -> Option<Url>,            // `new URL(s)`; absent when it throws
    resolve: (string, string) -> Option<string>, // `new URL(ref, base).href`; absent when it throws
    fetchPage: string -> Response<Page>,        // the page fetch, body parsed by JSDOM
    fetchAsset: string -> Response<Bytes>,      // a favicon fetch and its body
    writes: string -> bool)                     // whether writing the named asset file succeeds

  /** `PageMetadata`. */
  datatype PageMetadata = PageMetadata(
    title: string,
    description: Option<string>,
    favicon: Option<string>,
    ogImage: Option<string>)

  /** `extractMetadata` either returns a record or throws because the URL does not parse. */
  datatype Extraction = Extracted(metadata: PageMetadata) | InvalidUrl

  /** A favicon written to the asset store. */
  datatype SavedAsset = SavedAsset(filename: string, bytes: Bytes)

  // ---------------------------------------------------------------------
  // Favicon

  /** The candidate sources, in the order they are tried. */
  function Candidates(p: Page): seq<Option<string>> {
    [p.iconHref, p.shortcutIconHref, p.appleTouchIconHref, Some("/favicon.ico")]
  }

  /** `faviconUrl.split('.').pop()?.split('?')[0] || 'ico'`: the text after the last `.`
      of the whole absolute URL, cut at the first `?`, or `ico` when that is empty. */
  function Extension(href: string): (r: string)
    ensures r != "" && '.' !in r && '?' !in r
  {
    var e := BeforeFirst(AfterLast(href, '.'), '?');
    if e == "" then "ico" else e
  }

  /** `${hostname}-${Date.now()}.${ext}`. */
  function FaviconFilename(hostname: string, now: nat, href: string): string {
    hostname + "-" + NatToString(now) + "." + Extension(href)
  }

  /** The generated name keeps its parts apart: the extension reads back after the last `.`
      and the clock reading is a run of digits between the dash and that `.`. */
  lemma FaviconFilenameShape(hostname: string, now: nat, href: string)
    ensures StampedName(hostname, Extension(href), FaviconFilename(hostname, now, href))
  {
    FilenameShape(hostname, NatToString(now), Extension(href));
  }

  /** `r` is the hostname, a dash, a non-empty run of decimal digits, a `.`, and after that
      last `.` the extension `ext`. */
  predicate StampedName(hostname: string, ext: string, r: string) {
    && StartsWith(r, hostname + "-")
    && AfterLast(r, '.') == ext
    && |r| >= |hostname| + |ext| + 3
    && var stamp := r[|hostname| + 1..|r| - |ext| - 1];
       stamp != "" && forall i :: 0 <= i < |stamp| ==> IsDigit(stamp[i])
  }

  lemma FilenameShape(hostname: string, digits: string, ext: string)
    requires '.' !in ext && digits != [] && forall i :: 0 <= i < |digits| ==> IsDigit(digits[i])
    ensures StampedName(hostname, ext, hostname + "-" + digits + "." + ext)
  {
    var stem := hostname + "-" + digits;
    var r := stem + "." + ext;
    LastIndexOfAppend(stem, '.', ext);
    assert r == stem + ['.'] + ext;
    assert (stem + ['.'] + ext)[|stem| + 1..] == ext;
    assert r[|hostname| + 1..|r| - |ext| - 1] == digits;
  }

  /** `saveAsset` writes `join(assetsPath, filename)`, and the asset directory is the only
      directory created: a name with a `/` points into a directory that does not exist and
      the write throws. Every other write failure (a name too long for the file system, a
      full disk) is the answer of `writes`. */
  predicate Writable(web: Web, filename: string) {
    '/' !in filename && web.writes(filename)
  }

  /** What a favicon attempt depends on besides the candidate: the page URL the candidates
      resolve against, its hostname, the clock reading and the network. */
  datatype Attempt = Attempt(base: string, hostname: string, now: nat, web: Web)

  /** One pass of the candidate loop: the asset saved, or absent to move on. A falsy
      source is skipped; a reference that does not resolve, a non-ok response, a thrown
      fetch and a write that throws all fall through to the next candidate. */
  function TryCandidate(a: Attempt, source: Option<string>): Option<SavedAsset> {
    if !Truthy(source) then None
    else match a.web.resolve(source.value, a.base)
      case None => None
      case Some(href) =>
        match a.web.fetchAsset(href)
        case Ok(bytes) => Store(a, href, bytes)
        case _ => None
  }

  /** `saveAsset` under the generated file name, absent when the write throws. */
  function Store(a: Attempt, href: string, bytes: Bytes): Option<SavedAsset> {
    var filename := FaviconFilename(a.hostname, a.now, href);
    if Writable(a.web, filename) then Some(SavedAsset(filename, bytes)) else None
  }

  /** The first candidate from index `i` on that yields an asset. */
  function FirstSavedFrom(a: Attempt, sources: seq<Option<string>>, i: nat): Option<SavedAsset>
    decreases |sources| - i
  {
    if i >= |sources| then None
    else match TryCandidate(a, sources[i])
      case Some(saved) => Some(saved)
      case None => FirstSavedFrom(a, sources, i + 1)
  }

  function FirstSaved(a: Attempt, sources: seq<Option<string>>): Option<SavedAsset> {
    FirstSavedFrom(a, sources, 0)
  }

  /** The reference `extractFavicon` returns for a saved asset. */
  function FaviconRef(saved: Option<SavedAsset>): Option<string> {
    match saved
    case Some(s) => Some(SaveAsset(s.filename))
    case None => None
  }

  /** Candidate `k` is the first to yield an asset. */
  predicate FirstWinner(a: Attempt, sources: seq<Option<string>>, k: int) {
    && 0 <= k < |sources|
    && TryCandidate(a, sources[k]).Some?
    && forall j :: 0 <= j < k ==> TryCandidate(a, sources[j]).None?
  }

  /** `FirstSaved` picks the earliest candidate that succeeds, and is absent exactly when none does. */
  lemma {:induction false} FirstSavedFromIsFirst(a: Attempt, sources: seq<Option<string>>, i: nat)
    requires i <= |sources|
    requires forall j :: 0 <= j < i ==> TryCandidate(a, sources[j]).None?
    ensures var r := FirstSavedFrom(a, sources, i);
      && (r.None? <==> forall j :: 0 <= j < |sources| ==> TryCandidate(a, sources[j]).None?)
      && (r.Some? ==> exists k :: FirstWinner(a, sources, k) && r == TryCandidate(a, sources[k]))
    decreases |sources| - i
  {
    if i < |sources| {
      if TryCandidate(a, sources[i]).Some? {
        assert FirstWinner(a, sources, i);
      } else {
        FirstSavedFromIsFirst(a, sources, i + 1);
      }
    }
  }

  lemma FirstWinnerUnique(a: Attempt, sources: seq<Option<string>>, k: int)
    requires FirstWinner(a, sources, k)
    ensures forall k' :: FirstWinner(a, sources, k') ==> k' == k
  {
  }

  lemma FirstSavedIsFirst(a: Attempt, sources: seq<Option<string>>)
    ensures var r := FirstSaved(a, sources);
      && (r.None? <==> forall j :: 0 <= j < |sources| ==> TryCandidate(a, sources[j]).None?)
      && (r.Some? ==> exists k :: FirstWinner(a, sources, k) && r == TryCandidate(a, sources[k]))
  {
    FirstSavedFromIsFirst(a, sources, 0);
  }

  /** The first-success search returns the asset of the first winner. */
  lemma {:induction false} FirstSavedIsWinner(a: Attempt, sources: seq<Option<string>>, k: int)
    requires FirstWinner(a, sources, k)
    ensures FirstSaved(a, sources) == TryCandidate(a, sources[k])
  {
    FirstSavedIsFirst(a, sources);
    FirstWinnerUnique(a, sources, k);
  }

  /** What the reference of the first success says about the candidates. */
  lemma {:induction false} FaviconRefFacts(a: Attempt, sources: seq<Option<string>>)
    ensures var r := FaviconRef(FirstSaved(a, sources));
      && (r.None? <==> forall i :: 0 <= i < |sources| ==> TryCandidate(a, sources[i]).None?)
      && (r.Some? ==> exists k :: FirstWinner(a, sources, k)
                        && r.value == SaveAsset(TryCandidate(a, sources[k]).value.filename))
  {
    FirstSavedIsFirst(a, sources);
  }

  lemma NoneSoFar(a: Attempt, sources: seq<Option<string>>, i: nat)
    requires i < |sources| && TryCandidate(a, sources[i]).None?
    requires forall j :: 0 <= j < i ==> TryCandidate(a, sources[j]).None?
    ensures forall j :: 0 <= j < i + 1 ==> TryCandidate(a, sources[j]).None?
  {
  }

  /** `extractFavicon(baseUrl, document)`, written as the source's loop over the candidates.
      The reference returned is that of the first candidate whose fetch succeeds; when every
      candidate is skipped or fails, the result is absent rather than an error. */
  method ExtractFavicon(base: string, hostname: string, page: Page, now: nat, web: Web) returns (r: Option<string>)
    ensures var a := Attempt(base, hostname, now, web);
      && (r.None? <==> forall i :: 0 <= i < 4 ==> TryCandidate(a, Candidates(page)[i]).None?)
      && (r.Some? ==> exists k :: FirstWinner(a, Candidates(page), k)
                        && r.value == SaveAsset(TryCandidate(a, Candidates(page)[k]).value.filename))
      && r == FaviconRef(FirstSaved(a, Candidates(page)))
  {
    var a := Attempt(base, hostname, now, web);
    var sources := Candidates(page);
    FaviconRefFacts(a, sources);
    var i := 0;
    while i < |sources|
      invariant 0 <= i <= |sources|
      invariant forall j :: 0 <= j < i ==> TryCandidate(a, sources[j]).None?
    {
      var source := sources[i];
      if Truthy(source) {
        var resolved := web.resolve(source.value, base);
        if resolved.Some? {
          var response := web.fetchAsset(resolved.value);
          if response.Ok? {
            var saved := Store(a, resolved.value, response.body);
            if saved.Some? {
              FirstSavedIsWinner(a, sources, i);
              return Some(SaveAsset(saved.value.filename));
            }
          }
        }
      }
      NoneSoFar(a, sources, i);
      i := i + 1;
    }
    return None;
  }

  // ---------------------------------------------------------------------
  // extractMetadata

  /** `extractMetadata(url)` with clock reading `now`. */
  function ExtractMetadata(url: string, web: Web, now: nat): (r: Extraction)
    // only an unparsable URL throws (before the try)
    ensures r.InvalidUrl? <==> web.parseUrl(url).None?
    ensures r.Extracted? ==>
      var host := web.parseUrl(url).value.hostname;
      var m := r.metadata;
      // a non-ok response or a thrown fetch leaves the initial record
      && (!web.fetchPage(url).Ok? ==> m == PageMetadata(host, None, None, None))
      && (web.fetchPage(url).Ok? ==>
            var p := web.fetchPage(url).body;
            // title: og:title, else <title>, else the hostname
            && (Truthy(p.ogTitle) ==> m.title == p.ogTitle.value)
            && (!Truthy(p.ogTitle) && Truthy(p.titleText) ==> m.title == p.titleText.value)
            && (!Truthy(p.ogTitle) && !Truthy(p.titleText) ==> m.title == host)
            // description: og:description, else meta description, else absent
            && (Truthy(p.ogDescription) ==> m.description == p.ogDescription)
            && (!Truthy(p.ogDescription) ==> m.description == Nullify(p.metaDescription))
            // og:image: only when non-empty, resolved against the page URL
            && (m.ogImage.Some? <==> Truthy(p.ogImage) && web.resolve(p.ogImage.value, url).Some?)
            && (m.ogImage.Some? ==> m.ogImage == web.resolve(p.ogImage.value, url))
            // favicon: tried unless resolving og:image threw first
            && (!Truthy(p.ogImage) || web.resolve(p.ogImage.value, url).Some? ==>
                  m.favicon == FaviconRef(FirstSaved(Attempt(url, host, now, web), Candidates(p))))
            && (Truthy(p.ogImage) && web.resolve(p.ogImage.value, url).None? ==> m.favicon.None?))
  {
    match web.parseUrl(url)
    case None => InvalidUrl
    case Some(u) =>
      var initial := PageMetadata(u.hostname, None, None, None);
      match web.fetchPage(url)
      case NotOk => Extracted(initial)
      case Threw => Extracted(initial)
      case Ok(p) =>
        var title := if Truthy(p.ogTitle) then p.ogTitle.value
                     else if Truthy(p.titleText) then p.titleText.value
                     else initial.title;
        var fields := initial.(title := title, description := Nullify(Or(p.ogDescription, p.metaDescription)));
        if Truthy(p.ogImage) then
          match web.resolve(p.ogImage.value, url)
          // `new URL(ogImage, url)` threw: the catch returns what was built so far
          case None => Extracted(fields)
          case Some(href) =>
            Extracted(fields.(ogImage := Some(href),
                              favicon := FaviconRef(FirstSaved(Attempt(url, u.hostname, now, web), Candidates(p)))))
        else
          Extracted(fields.(favicon := FaviconRef(FirstSaved(Attempt(url, u.hostname, now, web), Candidates(p)))))
  }

  /** Every field of an extracted record is either non-empty or absent; the title can be
      empty only when the hostname is. */
  lemma {:induction false} ExtractedFieldsNonEmpty(url: string, web: Web, now: nat)
    requires web.parseUrl(url).Some?
    ensures var m := ExtractMetadata(url, web, now).metadata;
      && (m.title == "" ==> web.parseUrl(url).value.hostname == "")
      && m.description != Some("")
      && m.favicon != Some("")
  {
  }

  // ---------------------------------------------------------------------
  // The file-extension rule

  /** For a URL whose last `.` starts a plain extension, the extension is the text up to the
      query string. */
  lemma {:induction false} ExtensionOfPath(prefix: string, ext: string, query: string)
    requires ext != "" && '.' !in ext && '?' !in ext && '.' !in query
    ensures Extension(prefix + "." + ext + "?" + query) == ext
    ensures Extension(prefix + "." + ext) == ext
  {
    var q := ext + "?" + query;
    assert '.' !in q;
    LastIndexOfAppend(prefix, '.', q);
    assert (prefix + "." + ext + "?" + query) == prefix + ['.'] + q;
    assert (prefix + ['.'] + q)[|prefix| + 1..] == q;
    BeforeFirstAppend(ext, '?', query);
    LastIndexOfAppend(prefix, '.', ext);
    assert (prefix + ['.'] + ext)[|prefix| + 1..] == ext;
    BeforeFirstAbsent(ext, '?');
  }

  /** `|| 'ico'`: a URL ending in `.`, or whose last `.` is followed directly by the
      query string, falls back to `ico`. */
  lemma ExtensionFallback(prefix: string, query: string)
    requires '.' !in query
    ensures Extension(prefix + ".") == "ico"
    ensures Extension(prefix + ".?" + query) == "ico"
  {
    LastIndexOfAppend(prefix, '.', "");
    assert prefix + "." == prefix + ['.'] + "";
    assert (prefix + ['.'] + "")[|prefix| + 1..] == "";
    var q := "?" + query;
    assert '.' !in q;
    LastIndexOfAppend(prefix, '.', q);
    assert prefix + ".?" + query == prefix + ['.'] + q;
    assert (prefix + ['.'] + q)[|prefix| + 1..] == q;
    assert BeforeFirst(q, '?') == "";
  }

  /** A favicon URL whose extension holds a `/` gives a file name the asset store cannot
      write, so the candidate falls through even though its fetch succeeded. */
  lemma SlashExtensionFallsThrough(a: Attempt, source: string, href: string)
    requires a.web.resolve(source, a.base) == Some(href) && a.web.fetchAsset(href).Ok?
    requires '/' in Extension(href)
    ensures TryCandidate(a, Some(source)) == None
  {
    var stem := a.hostname + "-" + NatToString(a.now);
    var ext := Extension(href);
    var name := FaviconFilename(a.hostname, a.now, href);
    assert name == stem + "." + ext;
    var j :| 0 <= j < |ext| && ext[j] == '/';
    assert name[|stem| + 1 + j] == '/';
  }

  /** The rule looks at the whole URL, not its path: without a `.` after the host the
      "extension" is the tail of the host and path, slash included. */
  lemma {:induction false} ExtensionTakesHostTail()
    ensures Extension("https://example.com/favicon") == "com/favicon"
  {
    assert "https://example.com/favicon" == "https://example" + "." + "com/favicon";
    ExtensionOfPath("https://example", "com/favicon", "");
  }

  /** So an icon at `https://example.com/favicon` is fetched but never stored: the loop
      moves on to the next candidate. */
  lemma HostTailIconSkipped(a: Attempt, source: string)
    requires a.web.resolve(source, a.base) == Some("https://example.com/favicon")
    requires a.web.fetchAsset("https://example.com/favicon").Ok?
    ensures TryCandidate(a, Some(source)) == None
  {
    SlashInHostTail();
    SlashExtensionFallsThrough(a, source, "https://example.com/favicon");
  }

  lemma SlashInHostTail()
    ensures '/' in Extension("https://example.com/favicon")
  {
    ExtensionTakesHostTail();
    assert "com/favicon"[3] == '/';
  }

}
