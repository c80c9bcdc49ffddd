# QuickMark in Dafny

QuickMark is a self-hosted bookmark manager. A page is saved from a bookmarklet or a
browser extension. The server fetches the page, extracts its title, description, og:image
and favicon, and stores one row per URL in SQLite. The collection can be exported as JSON
or as a Netscape bookmark file.

This project models the deterministic core of that flow as pure Dafny functions over
immutable values, and proves what each step promises. The network, the HTML parser, the
URL parser and the clocks are parameters:

- a `Metadata.Web` value answers `new URL(...)`, resolves references, and gives the outcome
  of each fetch: a body, a non-ok response, or a thrown error;
- the parsed page is a record of the selector answers;
- `Date.now()`, SQLite's `CURRENT_TIMESTAMP` and the `Date` parser are passed in.

Modules, one per part of the program:

| module | file | models |
|---|---|---|
| `Options` | options.dfy | `undefined`/`null` as `Option`, JavaScript truthiness and `a \|\| b` on strings |
| `JsString` | js_string.dfy | the string built-ins the code relies on: `startsWith`, `includes`, `trim`, `toLowerCase`, `lastIndexOf`, `split`, `substring`, number printing |
| `BookmarkStore` | store.dfy | the `bookmarks` table and `createBookmark`, `getBookmark`, `getBookmarks`, `deleteBookmark`, `saveAsset` (src/lib/server/db.ts) |
| `Metadata` | metadata.dfy | `extractMetadata` and `extractFavicon` (src/lib/server/metadata.ts) |
| `HtmlEscape` | html_escape.dfy | the export's `escapeHtml` and a single-pass decoder for it |
| `Netscape` | netscape.dfy | `generateNetscapeBookmarks`, and a reader for the format it writes |
| `ExportRoute` | export_route.dfy | `GET /api/export` (src/routes/api/export/+server.ts) |
| `BookmarkRoute` | bookmark_route.dfy | `POST /api/bookmark` (src/routes/api/bookmark/+server.ts) |
| `Bookmarklet` | bookmarklet.dfy | static/bookmarklet.js: `getApiUrl`, `isValidImageUrl`, `getMetadata`, the save payload |
| `TagAutocomplete` | tag_autocomplete.dfy | static/bookmarklet.js: the tag dropdown filter, `insertTag`, the input and keydown listeners of the tag field |
| `Extension` | extension.dfy | extension/background.js: the tab guard, `getMetaContent`, `extractMetadata`, the popup parameters |

Points where the code behaves in ways a reader might not expect:

- In `extractMetadata`, an og:image that does not resolve against the page URL throws
  inside the `try`. The record built so far is returned, and no favicon is attempted
  (`Metadata.ExtractMetadata`).
- The favicon's file extension is taken after the last `.` of the whole absolute URL, so a
  path without a dot yields an "extension" such as `com/favicon`
  (`Metadata.ExtensionTakesHostTail`). The file name then contains a `/`, the write into
  the asset directory throws, and the icon is never stored: the loop moves on to the next
  candidate (`Metadata.SlashExtensionFallsThrough`, `Metadata.HostTailIconSkipped`).
- `escapeHtml` is not idempotent (`HtmlEscape.NotIdempotent`).
- In the bookmarklet, a twitter:image `name` tag that is present but unusable hides a usable
  `property` tag (`Bookmarklet.TwitterNameShadowsProperty`).
- The bookmarklet sends an edited title, description and image URL. `POST /api/bookmark`
  reads only `url` and `tags` from the body, so the server's extraction decides those fields
  (`BookmarkRoute.Post`).

## Model

| member | source | states |
|---|---|---|
| Metadata.ExtractMetadata | src/lib/server/metadata.ts:11-61 | Only an unparsable URL fails. A non-ok or thrown page fetch gives exactly `{title: hostname}`. Title is og:title, else `<title>`, else hostname. Description is og:description, else meta description, else absent, never `""`. ogImage is present iff og:image is non-empty and resolves, and is then the resolved URL. The favicon is the first candidate that is fetched and written, except after an og:image that does not resolve |
| Metadata.ExtractedFieldsNonEmpty | src/lib/server/metadata.ts:40-45 | an extracted description or favicon is never the empty string; the title is empty only when the hostname is |
| Metadata.ExtractFavicon | src/lib/server/metadata.ts:63-96 | The loop returns the reference of the first candidate, in the order icon, shortcut icon, apple-touch-icon, `/favicon.ico`, that resolves, fetches ok and whose file is written; a name containing `/` is never written. Falsy candidates are skipped. It is absent iff every candidate fails, and equals the first-success reference definition |
| Metadata.FirstSavedIsFirst | src/lib/server/metadata.ts:74-95 | the first-success search is absent exactly when every candidate fails, and otherwise yields the asset of the unique first candidate that succeeds |
| Metadata.Extension | src/lib/server/metadata.ts:85 | the favicon extension is never empty and contains no `.` and no `?` |
| Metadata.ExtensionFallback | src/lib/server/metadata.ts:85 | `\|\| 'ico'`: a URL ending in `.`, or with `?` right after its last `.`, gets the extension `ico` |
| Metadata.FaviconFilenameShape | src/lib/server/metadata.ts:85-86 | the file name is the hostname, a dash, a non-empty run of decimal digits, a `.`, and after that last `.` exactly the favicon URL's extension |
| Metadata.ExtensionOfPath | src/lib/server/metadata.ts:85 | for a URL `prefix.ext?query` or `prefix.ext`, with no `.` after the last one, the extension is `ext` |
| Metadata.ExtensionTakesHostTail | src/lib/server/metadata.ts:85 | for `https://example.com/favicon` the extension is `com/favicon`: the rule reads the whole URL, not the path |
| Metadata.SlashExtensionFallsThrough | src/lib/server/db.ts:112-116 | a candidate that resolves and fetches ok but whose extension contains `/` is not stored: the write under a missing directory throws and the loop moves on |
| Metadata.HostTailIconSkipped | src/lib/server/metadata.ts:83-92 | an icon resolving to `https://example.com/favicon` is fetched but never stored, and the next candidate is tried |
| BookmarkStore.GetBookmark | src/lib/server/db.ts:64-67 | a row is returned iff some row has the id, and it is a row with that id |
| BookmarkStore.GetBookmarkUnique | src/lib/server/db.ts:64-67 | in a valid table, looking up a row's id returns exactly that row |
| BookmarkStore.CreateBookmark | src/lib/server/db.ts:69-104 | For an existing URL, only the tags change (to the new tags, or null) and updated_at is refreshed. Every other row and field is kept and the updated row is returned. For a new URL, one row is appended under the next id, empty optional fields become NULL, and the new row is returned |
| BookmarkStore.CreateBookmarkValid | src/lib/server/db.ts:20-22 | URL uniqueness and increasing positive ids survive an upsert; afterwards the URL names exactly one row, which `getBookmark` returns |
| BookmarkStore.DeleteBookmark | src/lib/server/db.ts:106-110 | for any integer id, the result is true iff a row had the id; afterwards the rows are exactly the old rows without that id |
| BookmarkStore.DeleteBookmarkValid | src/lib/server/db.ts:106-110 | deletion keeps the table constraints and no row with the id remains |
| BookmarkStore.DeleteNonPositiveId | src/lib/server/db.ts:106-110 | the delete route passes whatever `parseInt` reads, so the id may be 0 or negative; no row has such an id, so the delete reports false and the table is unchanged |
| BookmarkStore.InsertSorted | src/lib/server/db.ts:59-62 | inserting into a newest-first list keeps it newest-first and adds exactly that row |
| BookmarkStore.GetBookmarks | src/lib/server/db.ts:59-62 | every row exactly once (a permutation), ordered by created_at descending under SQLite's binary text order |
| BookmarkStore.SaveAsset | src/lib/server/db.ts:112-116 | the reference is `/assets/` followed by exactly the filename |
| HtmlEscape.EscapeChar | src/routes/api/export/+server.ts:82-88 | each of the five special characters becomes an entity starting with `&`; any other character is kept as is |
| HtmlEscape.EscapeHtml | src/routes/api/export/+server.ts:81-90 | the output contains no `<`, `>`, `"` or `'`, and is never shorter than the input |
| HtmlEscape.EscapeAppend | src/routes/api/export/+server.ts:89 | the global replace works character by character: escaping distributes over concatenation |
| HtmlEscape.AmpersandsBeginEntities | src/routes/api/export/+server.ts:82-89 | every `&` in the output begins one of the five entities |
| HtmlEscape.EscapeIdentityIffPlain | src/routes/api/export/+server.ts:81-90 | escaping leaves a string unchanged iff it has none of the five characters, which is also iff the length is unchanged |
| HtmlEscape.UnescapeEscape | src/routes/api/export/+server.ts:81-90 | single-pass decoding of the five entities recovers the original text |
| HtmlEscape.EscapeTwiceIffPlain | src/routes/api/export/+server.ts:81-90 | escaping twice equals escaping once iff the text has none of the five characters |
| HtmlEscape.NotIdempotent | src/routes/api/export/+server.ts:83-89 | `&` becomes `&amp;`, which becomes `&amp;amp;` |
| Netscape.AddDate | src/routes/api/export/+server.ts:61 | the printed add date is never empty and contains no `"` or `<` (digits, a sign, or `NaN`) |
| Netscape.Generate | src/routes/api/export/+server.ts:45-79 | the file begins with the Netscape doctype line and ends with the fixed footer |
| Netscape.ParseEntry | src/routes/api/export/+server.ts:65-71 | one generated entry line reads back as that bookmark's link, leaving the rest of the text |
| Netscape.ParseEntries | src/routes/api/export/+server.ts:60-72 | the generated entries read back as one link per bookmark, in input order |
| Netscape.RoundTrip | src/routes/api/export/+server.ts:45-79 | reading a generated file back gives its `ADD_DATE` timestamp and one link per bookmark, in order |
| Netscape.ExportedLinks | src/routes/api/export/+server.ts:60-72 | One entry per bookmark. HREF is the URL, the text is the title or the URL when the title is null or empty, and `ICON_URI` is present iff favicon_path is non-empty |
| ExportRoute.FormatOf | src/routes/api/export/+server.ts:6 | a missing or empty `format` means `json`; any other value is taken as given |
| ExportRoute.Get | src/routes/api/export/+server.ts:5-30 | `json` (the default) gives the JSON of every row, newest first. `html` gives a Netscape file that reads back as those rows' links. Any other value gives 400 `Invalid format` |
| BookmarkRoute.Record | src/routes/api/bookmark/+server.ts:28-36 | the record stores the normalised href as url and the hostname as domain; favicon goes to favicon_path, ogImage to og_image_path, and falsy tags become null |
| BookmarkRoute.Post | src/routes/api/bookmark/+server.ts:6-43 | A missing, empty or non-string url gives 400 `Invalid URL`, and an unparsable one 400 `Invalid URL format`, in both cases without a write. An unreadable body gives 500. Otherwise the extracted record is upserted and returned |
| BookmarkRoute.PostStoresMetadata | src/routes/api/bookmark/+server.ts:24-38 | a new URL is stored with the extracted fields and adds one row; a known URL keeps its title, gains no row, and takes the new tags |
| Bookmarklet.GetApiUrl | static/bookmarklet.js:6-21 | the origin of the current script if it has a src, else of the last script whose src mentions `bookmarklet.js`, else `http://do:9022` |
| Bookmarklet.IsValidImageUrl | static/bookmarklet.js:46-53 | true iff the URL is non-empty, starts with `http://` or `https://`, and contains neither `about:blank` nor `placeholder` |
| Bookmarklet.FindProminent | static/bookmarklet.js:56-65 | the index of the first image at least 200x150 with a valid src free of `logo`, `icon` and `avatar` and an alt text free of `logo` in any case; absent iff there is none |
| Bookmarklet.ImageUrl | static/bookmarklet.js:67-86 | the image is `""` or a valid URL, and is the prominent image's src whenever there is one |
| Bookmarklet.ImageUrlIsFirstValid | static/bookmarklet.js:55-86 | the image is the first valid one of the prominent image, og:image, and twitter:image (name form, else property form), or `""` |
| Bookmarklet.TwitterNameShadowsProperty | static/bookmarklet.js:80-85 | with no prominent image and no valid og:image, a non-empty but invalid twitter:image `name` tag yields no image even when the `property` tag is valid |
| Bookmarklet.FullTitle | static/bookmarklet.js:34-35 | the title is og:title when non-empty, else the document title |
| Bookmarklet.FullDescription | static/bookmarklet.js:38-40 | the description is og:description, else the meta description, else `""` |
| Bookmarklet.GetMetadata | static/bookmarklet.js:32-94 | title and description are prefixes of their fallbacks, at most 500 and 1000 characters, and unchanged when short enough; the image is the first valid candidate |
| Bookmarklet.InputOr | static/bookmarklet.js:506-507 | a blank input falls back; otherwise the result is `trim()` of the input, non-empty and a part of it |
| JsString.Trim | static/bookmarklet.js:506-507 | `trim()` neither starts nor ends with white space, is empty iff the input is blank, and is the input with only blank text removed before and after it |
| JsString.TrimUnique | static/bookmarklet.js:506-507 | any non-empty trimmed part of a string with only blanks around it is `trim()` of that string |
| JsString.SplitJoin | static/bookmarklet.js:434 | joining the fragments of `split(',')` with commas gives the input back |
| Bookmarklet.Payload | static/bookmarklet.js:504-510 | url and image come from the page; title and description are the trimmed inputs or the originals; tags are the trimmed input, and null exactly when it is blank |
| TagAutocomplete.EarlierTags | static/bookmarklet.js:434-439 | the used tags are every comma fragment but the last, trimmed and lower-cased |
| TagAutocomplete.CurrentFragment | static/bookmarklet.js:432-433 | the fragment being typed is the last comma fragment, trimmed and lower-cased |
| TagAutocomplete.Filter | static/bookmarklet.js:436-440 | the kept tags are exactly the suggested ones, each as often as in the input and in their original order |
| TagAutocomplete.Suggestions | static/bookmarklet.js:430-440 | Nothing is suggested while the fragment is empty. Otherwise a tag is suggested iff its lower case starts with the fragment and is not among the earlier fragments |
| TagAutocomplete.InsertTag | static/bookmarklet.js:452-456 | the new text ends with the tag and `, `; everything through the last comma is kept and followed by a blank before the tag; without a comma the text becomes the tag and `, ` |
| TagAutocomplete.InsertTagCompletes | static/bookmarklet.js:452-458 | after `insertTag` the tag is one more earlier fragment, the current fragment is empty, and nothing is suggested |
| TagAutocomplete.InsertedTagNotSuggestedAgain | static/bookmarklet.js:430-458 | while the next fragment is typed, an inserted tag without surrounding blanks is not suggested again |
| TagAutocomplete.OnKeyDown | static/bookmarklet.js:473-489 | nothing happens when the dropdown is hidden or empty; Enter inserts only a highlighted option, and inserts exactly that option; Down on the last option and Up with nothing highlighted leave the index where it is |
| TagAutocomplete.SelectionStaysInRange | static/bookmarklet.js:473-489 | from an index in [-1, n-1], arrows keep it there and Enter never reaches a missing option |
| TagAutocomplete.ArrowsUndo | static/bookmarklet.js:477-484 | away from the ends, Down then Up (or Up then Down) returns to the same option |
| TagAutocomplete.InsertTagChanges | static/bookmarklet.js:452-456 | `insertTag` always changes the input's text |
| TagAutocomplete.OnInput | static/bookmarklet.js:462-465 | typing clears the highlight, and the dropdown is shown iff some known tag is suggested for the new text |
| TagAutocomplete.Step | static/bookmarklet.js:452-489 | Arrows keep the text and the dropdown's visibility. Enter on a highlighted option inserts it, hides the dropdown and clears the highlight. A highlight in range stays in range while the text is unchanged |
| TagAutocomplete.RunStaysInRange | static/bookmarklet.js:452-489 | over any run of keys, a highlight in range of the rendered options stays in range, including after insertions |
| Extension.GetMetaContent | extension/background.js:61-67 | the content of the first selector, in order, with non-empty content; `""` exactly when there is none |
| Extension.GetMetaContentIsOr | extension/background.js:61-67 | for two selectors this is `a \|\| b \|\| ''` |
| Extension.ExtractMetadata | extension/background.js:60-81 | Title is og:title, else the document title. Description is og:description, else meta description. Image is og:image, else twitter:image by name, else by property, or `""` |
| Extension.PopupParams | extension/background.js:21-48 | After a failed injection there are only url and title. Otherwise url, title, description and image_url, where the title falls back to the tab's title and the rest to `""` |
| Extension.OnClicked | extension/background.js:5-57 | Tabs without an id or url, and `chrome://` or `chrome-extension://` pages, open nothing. Otherwise the popup is `http://do:9022/save?` followed by the encoded parameters |
| Extension.PopupTitleFallback | extension/background.js:24-29 | end to end, the popup title is og:title, else the document title, else the tab's title, else `""` |

## Left out

- Network I/O, `fetch`, `AbortController` and the timeouts are left out. Every fetch is an oracle answering a body, a non-ok response or a thrown error, and a timeout is a thrown error.
- JSDOM parsing and CSS selectors are left out. A page is the record of what each selector finds.
- The WHATWG URL parser (`new URL`, `.href`, `.hostname`, `.origin`) is an uninterpreted parameter, as is `URLSearchParams` encoding.
- SQLite itself, the directory creation and the `ALTER TABLE` migration are left out. Only the table's semantics are modelled, and a failing SQL statement is not.
- Metadata.ExtractFavicon: the write in `saveAsset` fails on a name containing `/`, because only the asset directory exists. Every other write failure, such as a name longer than the file system's 255-byte limit or a full disk, is the answer of the `writes` parameter rather than computed from the name.
- The favicon's bytes are carried as an opaque byte sequence and never inspected.
- `JSON.stringify` of the export is a parameter.
- The popup HTML and CSS, event-listener wiring, focus and blur timers, the Escape key, and the DOM-based `escapeHtml` of static/bookmarklet.js are left out. So are the tag and save `fetch` calls and the Chrome APIs (`chrome.scripting`, `chrome.windows`).
- Clicking a dropdown option (static/bookmarklet.js:491-495) runs the same `insertTag` as Enter and is not modelled separately. Focus and blur only re-render or hide the same options and keep the highlight.
- The other routes are not part of this model: src/routes/api/bookmarklet/+server.ts, src/routes/api/tags/+server.ts, the responses of src/routes/api/bookmark/[id]/+server.ts, src/routes/assets and src/routes/+page.server.ts. `getAllTags` is not part of this model; the bookmarklet's known tags are a parameter.
- JsString.ToLower: lower-cases ASCII letters only, because full Unicode case mapping is out of scope; the tag and alt-text comparisons are exact for ASCII text.
- Bookmarklet.GetMetadata: counts characters (code points), whereas `substring` counts UTF-16 code units; the two differ only for text outside the Basic Multilingual Plane.
- BookmarkStore.GetBookmarks: the relative order of rows with equal created_at is not fixed, because SQLite does not fix it either.
- ExportRoute.Get: one clock reading serves both the file name and the Netscape timestamp, whereas the source reads `Date.now()` twice, a few instructions apart.
- Metadata.ExtractMetadata: one clock reading is used for the favicon's file name; the source reads the clock when the favicon has been fetched.
- BookmarkRoute.Post: `tags` in the request body is modelled as a string or absent. Numbers, arrays and objects, which SQLite would store or reject, are not modelled.
- TagAutocomplete.OnKeyDown: the inserted option's `data-tag` is assumed to read back as the tag. The browser's attribute escaping and parsing round trip is not modelled.
- Extension.OnClicked: the popup's size and window type are not modelled.
