/** `GET /api/export`: picks the export format from the `format` query
    parameter and serialises every bookmark, newest first. */
module ExportRoute {
  import opened Options
  import opened JsString
  import opened BookmarkStore
  import opened Netscape

  datatype ExportResponse =
    | Download(contentType: string, filename: string, body: string)
    | Rejected(status: nat, message: string)

  /** `url.searchParams.get('format') || 'json'`. */
  function FormatOf(param: Option<string>): (r: string)
    ensures Truthy(param) ==> r == param.value
    ensures !Truthy(param) ==> r == "json"
  {
    if Truthy(param) then param.value else "json"
  }

  /** The route handler. `toJson` stands for `JSON.stringify(bookmarks, null, 2)`,
      `nowMs` for `Date.now()` and `dateMillis` for the `Date` parser. */
  function Get(param: Option<string>, t: Table, nowMs: nat, dateMillis: string -> Option<int>,
               toJson: seq<Bookmark> -> string): (r: ExportResponse)
    // missing, empty or "json": the JSON dump of every row, newest first
    ensures !Truthy(param) || param == Some("json") ==>
      && r.Download? && r.contentType == "application/json"
      && r.body == toJson(GetBookmarks(t))
      && r.filename == "bookmarks-" + NatToString(nowMs) + ".json"
    // "html": a Netscape file that reads back as one link per row, newest first
    ensures param == Some("html") ==>
      && r.Download? && r.contentType == "text/html"
      && r.filename == "bookmarks-" + NatToString(nowMs) + ".html"
      && Parse(r.body) == Some(Document(NatToString(nowMs / 1000), LinksOf(GetBookmarks(t), dateMillis)))
    // anything else is refused
    ensures r.Rejected? <==> Truthy(param) && param.value != "json" && param.value != "html"
    ensures r.Rejected? ==> r.status == 400 && r.message == "Invalid format"
  {
    var format := FormatOf(param);
    var bookmarks := GetBookmarks(t);
    if format == "json" then
      Download("application/json", "bookmarks-" + NatToString(nowMs) + ".json", toJson(bookmarks))
    else if format == "html" then
      RoundTrip(bookmarks, nowMs, dateMillis);
      Download("text/html", "bookmarks-" + NatToString(nowMs) + ".html", Generate(bookmarks, nowMs, dateMillis))
    else
      Rejected(400, "Invalid format")
  }
}
