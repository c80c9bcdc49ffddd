/** `POST /api/bookmark`: validates the submitted URL, extracts the page's
    metadata and upserts the bookmark. */
module BookmarkRoute {
  import opened Options
  import opened BookmarkStore
  import opened Metadata

  /** A JSON member as far as the handler tells values apart. */
  datatype JsonValue = Missing | Null | Str(s: string) | NonString

  /** The request body: unreadable (not JSON, or a JSON `null` that cannot be destructured),
      or the `url` and `tags` members. */
  datatype Body = Unreadable | Fields(url: JsonValue, tags: Option<string>)

  datatype ApiResponse =
    | Created(bookmark: Bookmark)        // 201
    | BadRequest(message: string)        // 400
    | ServerError(message: string)       // 500

  /** `!url || typeof url !== 'string'` fails exactly for these. */
  predicate UsableUrl(v: JsonValue) {
    v.Str? && v.s != ""
  }

  /** The record handed to `createBookmark`: the normalised URL and its host, the
      extracted fields, and `tags || null`. */
  function Record(u: Url, m: PageMetadata, tags: Option<string>): (r: NewBookmark)
    ensures r.url == u.href && r.domain == u.hostname
    ensures r.title == Some(m.title) && r.description == m.description
    ensures r.faviconPath == m.favicon && r.ogImagePath == m.ogImage
    ensures r.tags == Nullify(tags) && r.tags != Some("")
  {
    NewBookmark(u.href, u.hostname, Some(m.title), m.description, m.favicon, m.ogImage, Nullify(tags))
  }

  /** The handler, with clock readings `nowMs` (`Date.now()`) and `timestamp` (SQLite's
      CURRENT_TIMESTAMP). Returns the response and the table afterwards. */
  function Post(body: Body, web: Web, nowMs: nat, timestamp: string, t: Table): (r: (ApiResponse, Table))
    // refusals and failures leave the table as it was
    ensures !r.0.Created? ==> r.1 == t
    ensures r.0 == ServerError("Failed to create bookmark") <== body.Unreadable?
    ensures r.0 == BadRequest("Invalid URL") <==> body.Fields? && !UsableUrl(body.url)
    ensures r.0 == BadRequest("Invalid URL format")
            <==> body.Fields? && UsableUrl(body.url) && web.parseUrl(body.url.s).None?
    // a usable, parsable URL is stored under its normalised form with the extracted fields
    ensures body.Fields? && UsableUrl(body.url) && web.parseUrl(body.url.s).Some? ==>
      var u := web.parseUrl(body.url.s).value;
      var m := ExtractMetadata(body.url.s, web, nowMs).metadata;
      && r.0.Created?
      && (r.1, r.0.bookmark) == CreateBookmark(t, Record(u, m, body.tags), timestamp)
      && r.0.bookmark.url == u.href
  {
    match body
    case Unreadable => (ServerError("Failed to create bookmark"), t)
    case Fields(url, tags) =>
      if !UsableUrl(url) then (BadRequest("Invalid URL"), t)
      else match web.parseUrl(url.s)
        case None => (BadRequest("Invalid URL format"), t)
        case Some(u) =>
          match ExtractMetadata(url.s, web, nowMs)
          // cannot happen once the URL has parsed; a throw here would reach the catch
          case InvalidUrl => (ServerError("Failed to create bookmark"), t)
          case Extracted(m) =>
            var (t', row) := CreateBookmark(t, Record(u, m, tags), timestamp);
            (Created(row), t')
  }

  /** A new URL gets the extracted title, description, favicon and og:image; a URL already
      stored keeps its fields and only takes the new tags. */
  lemma {:induction false} PostStoresMetadata(body: Body, web: Web, nowMs: nat, timestamp: string, t: Table)
    requires body.Fields? && UsableUrl(body.url) && web.parseUrl(body.url.s).Some?
    ensures var u := web.parseUrl(body.url.s).value;
      var m := ExtractMetadata(body.url.s, web, nowMs).metadata;
      var (resp, t') := Post(body, web, nowMs, timestamp, t);
      && (FindByUrl(t.rows, u.href).None? ==>
            && resp.bookmark.title == Nullify(Some(m.title))
            && resp.bookmark.description == m.description
            && resp.bookmark.faviconPath == m.favicon
            && resp.bookmark.ogImagePath == Nullify(m.ogImage)
            && resp.bookmark.domain == u.hostname
            && |t'.rows| == |t.rows| + 1)
      && (FindByUrl(t.rows, u.href).Some? ==>
            && resp.bookmark.title == t.rows[FindByUrl(t.rows, u.href).value].title
            && |t'.rows| == |t.rows|)
      && resp.bookmark.tags == Nullify(body.tags)
  {
    var u := web.parseUrl(body.url.s).value;
    var m := ExtractMetadata(body.url.s, web, nowMs).metadata;
    if FindByUrl(t.rows, u.href).None? {
      assert m.description != Some("") && m.favicon != Some("") by {
        ExtractedFieldsNonEmpty(body.url.s, web, nowMs);
      }
    }
  }
}
