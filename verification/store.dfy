/** The `bookmarks` table of the SQLite store and the operations on it:
    upsert by URL, lookup by id, listing by creation time, deletion, and the
    reference format of stored assets. The table is a value; every operation
    returns the new table alongside its result. */
module BookmarkStore {
  import opened Options
  import opened JsString

  /** One row of `bookmarks`; absent values are SQL NULL. */
  datatype Bookmark = Bookmark(
    id: nat,
    url: string,
    domain: string,
    title: Option<string>,
    description: Option<string>,
    faviconPath: Option<string>,
    ogImagePath: Option<string>,
    tags: Option<string>,
    createdAt: string,
    updatedAt: string,
    accessedCount: int)

  /** The rows in rowid order, and the AUTOINCREMENT counter (the largest id ever handed out). */
  datatype Table = Table(rows: seq<Bookmark>, lastId: nat)

  /** What the table's constraints guarantee: `url` is UNIQUE, and AUTOINCREMENT ids are
      positive, increase with insertion order and never exceed the counter. */
  predicate Valid(t: Table) {
    && UrlsDistinct(t.rows)
    && IdsIncreasing(t.rows)
    && (forall i :: 0 <= i < |t.rows| ==> 1 <= t.rows[i].id <= t.lastId)
  }

  predicate UrlsDistinct(rows: seq<Bookmark>) {
    forall i, j :: 0 <= i < j < |rows| ==> rows[i].url != rows[j].url
  }

  predicate IdsIncreasing(rows: seq<Bookmark>) {
    forall i, j :: 0 <= i < j < |rows| ==> rows[i].id < rows[j].id
  }

  const Empty := Table([], 0)

  lemma EmptyValid()
    ensures Valid(Empty)
  {
  }

  /** The argument of `createBookmark`: the optional fields may be missing or empty. */
  datatype NewBookmark = NewBookmark(
    url: string,
    domain: string,
    title: Option<string>,
    description: Option<string>,
    faviconPath: Option<string>,
    ogImagePath: Option<string>,
    tags: Option<string>)

  // ---------------------------------------------------------------------
  // Lookups

  /** The index of the first row that satisfies `matches`. */
  function FindRow(rows: seq<Bookmark>, matches: Bookmark -> bool): (r: Option<nat>)
    ensures r.Some? ==> r.value < |rows| && matches(rows[r.value])
    ensures r.None? <==> forall i :: 0 <= i < |rows| ==> !matches(rows[i])
  {
    if rows == [] then None
    else if matches(rows[0]) then Some(0)
    else match FindRow(rows[1..], matches)
      case None => None
      case Some(i) => Some(i + 1)
  }

  /** `SELECT id FROM bookmarks WHERE url = ?`, as a row index. */
  function FindByUrl(rows: seq<Bookmark>, url: string): (r: Option<nat>)
    ensures r.Some? ==> r.value < |rows| && rows[r.value].url == url
    ensures r.None? <==> forall i :: 0 <= i < |rows| ==> rows[i].url != url
  {
    FindRow(rows, (b: Bookmark) => b.url == url)
  }

  /** `SELECT * FROM bookmarks WHERE id = ?`, as a row index. */
  function FindById(rows: seq<Bookmark>, id: int): (r: Option<nat>)
    ensures r.Some? ==> r.value < |rows| && rows[r.value].id == id
    ensures r.None? <==> forall i :: 0 <= i < |rows| ==> rows[i].id != id
  {
    FindRow(rows, (b: Bookmark) => b.id == id)
  }

  /** `getBookmark(id)`: the row with that id, or undefined. */
  function GetBookmark(t: Table, id: int): (r: Option<Bookmark>)
    ensures r.Some? <==> exists i :: 0 <= i < |t.rows| && t.rows[i].id == id
    ensures r.Some? ==> r.value in t.rows && r.value.id == id
  {
    match FindById(t.rows, id)
    case None => None
    case Some(i) => Some(t.rows[i])
  }

  lemma {:induction false} GetBookmarkUnique(t: Table, i: nat)
    requires Valid(t) && i < |t.rows|
    ensures GetBookmark(t, t.rows[i].id) == Some(t.rows[i])
  {
    var k := FindById(t.rows, t.rows[i].id).value;
    assert t.rows[k].id == t.rows[i].id;
  }

  // ---------------------------------------------------------------------
  // createBookmark

  /** `createBookmark(data)` at time `now` (the value of CURRENT_TIMESTAMP). An existing
      URL only has its tags replaced and its `updated_at` refreshed; a new URL gets a row
      with a fresh id and empty optional values stored as NULL. Returns the row as read back. */
  function CreateBookmark(t: Table, data: NewBookmark, now: string): (r: (Table, Bookmark))
    ensures r.1 in r.0.rows && r.1.url == data.url && r.1.updatedAt == now
    ensures r.1.tags == Nullify(data.tags)
    ensures r.0.lastId >= t.lastId
    // an existing URL: same rows, one of them with new tags and timestamp
    ensures FindByUrl(t.rows, data.url).Some? ==>
      var i := FindByUrl(t.rows, data.url).value;
      && |r.0.rows| == |t.rows| && r.0.lastId == t.lastId
      && r.0.rows[i] == r.1
      && r.1 == t.rows[i].(tags := Nullify(data.tags), updatedAt := now)
      && (forall j :: 0 <= j < |t.rows| && j != i ==> r.0.rows[j] == t.rows[j])
    // a new URL: one row appended under the next id
    ensures FindByUrl(t.rows, data.url).None? ==>
      && r.0.rows == t.rows + [r.1]
      && r.1.id == t.lastId + 1 == r.0.lastId
      && r.1.domain == data.domain
      && r.1.title == Nullify(data.title)
      && r.1.description == Nullify(data.description)
      && r.1.faviconPath == Nullify(data.faviconPath)
      && r.1.ogImagePath == Nullify(data.ogImagePath)
      && r.1.createdAt == now && r.1.accessedCount == 0
  {
    match FindByUrl(t.rows, data.url)
    case Some(i) =>
      var row := t.rows[i].(tags := Nullify(data.tags), updatedAt := now);
      var rows := t.rows[i := row];
      assert rows[i] == row;
      (Table(rows, t.lastId), row)
    case None =>
      var id := t.lastId + 1;
      var row := Bookmark(id, data.url, data.domain, Nullify(data.title), Nullify(data.description),
                          Nullify(data.faviconPath), Nullify(data.ogImagePath), Nullify(data.tags),
                          now, now, 0);
      (Table(t.rows + [row], id), row)
  }

  /** The table constraints survive `createBookmark`, and the URL then names exactly one row,
      which `getBookmark` returns. */
  lemma {:induction false} CreateBookmarkValid(t: Table, data: NewBookmark, now: string)
    requires Valid(t)
    ensures var (t', row) := CreateBookmark(t, data, now);
      && Valid(t')
      && (forall i :: 0 <= i < |t'.rows| && t'.rows[i].url == data.url ==> t'.rows[i] == row)
      && GetBookmark(t', row.id) == Some(row)
  {
    var (t', row) := CreateBookmark(t, data, now);
    var k;
    if FindByUrl(t.rows, data.url).Some? {
      k := FindByUrl(t.rows, data.url).value;
      UpdateKeepsKeys(t, data, now);
    } else {
      k := |t.rows|;
      AppendKeepsKeys(t, data, now);
    }
    GetBookmarkUnique(t', k);
  }

  /** Updating a known URL keeps every row's id and url, so the constraints still hold. */
  lemma UpdateKeepsKeys(t: Table, data: NewBookmark, now: string)
    requires Valid(t) && FindByUrl(t.rows, data.url).Some?
    ensures var (t', row) := CreateBookmark(t, data, now);
      && Valid(t')
      && (forall i :: 0 <= i < |t'.rows| && t'.rows[i].url == data.url ==> t'.rows[i] == row)
  {
    var (t', row) := CreateBookmark(t, data, now);
    var k := FindByUrl(t.rows, data.url).value;
    assert forall j :: 0 <= j < |t.rows| ==> t'.rows[j].id == t.rows[j].id && t'.rows[j].url == t.rows[j].url;
  }

  /** A new URL goes last under an id above every other. */
  lemma AppendKeepsKeys(t: Table, data: NewBookmark, now: string)
    requires Valid(t) && FindByUrl(t.rows, data.url).None?
    ensures var (t', row) := CreateBookmark(t, data, now);
      && Valid(t')
      && (forall i :: 0 <= i < |t'.rows| && t'.rows[i].url == data.url ==> t'.rows[i] == row)
  {
    var (t', row) := CreateBookmark(t, data, now);
    assert forall j :: 0 <= j < |t.rows| ==> t'.rows[j] == t.rows[j];
  }

  // ---------------------------------------------------------------------
  // deleteBookmark

  function Without(rows: seq<Bookmark>, id: int): (r: seq<Bookmark>)
    ensures forall b :: b in r <==> b in rows && b.id != id
    ensures |r| <= |rows|
  {
    if rows == [] then []
    else if rows[0].id == id then Without(rows[1..], id)
    else [rows[0]] + Without(rows[1..], id)
  }

  /** `deleteBookmark(id)`: removes the row with that id and reports whether there was one. */
  function DeleteBookmark(t: Table, id: int): (r: (Table, bool))
    ensures r.1 <==> exists i :: 0 <= i < |t.rows| && t.rows[i].id == id
    ensures forall b :: b in r.0.rows <==> b in t.rows && b.id != id
    ensures r.0.lastId == t.lastId
  {
    var rows := Without(t.rows, id);
    (Table(rows, t.lastId), FindById(t.rows, id).Some?)
  }

  lemma {:induction false} WithoutOrdered(rows: seq<Bookmark>, id: int)
    requires IdsIncreasing(rows) && UrlsDistinct(rows)
    ensures IdsIncreasing(Without(rows, id)) && UrlsDistinct(Without(rows, id))
  {
    if rows != [] {
      var h, tl := rows[0], rows[1..];
      assert IdsIncreasing(tl) && UrlsDistinct(tl);
      WithoutOrdered(tl, id);
      if h.id != id {
        var tail := Without(tl, id);
        assert Without(rows, id) == [h] + tail;
        forall x | x in tail
          ensures h.id < x.id && h.url != x.url
        {
          var k :| 0 <= k < |tl| && tl[k] == x;
          assert rows[k + 1] == x;
        }
        ConsOrdered(h, tail);
      }
    }
  }

  lemma ConsOrdered(h: Bookmark, tail: seq<Bookmark>)
    requires IdsIncreasing(tail) && UrlsDistinct(tail)
    requires forall x :: x in tail ==> h.id < x.id && h.url != x.url
    ensures IdsIncreasing([h] + tail) && UrlsDistinct([h] + tail)
  {
    var r := [h] + tail;
    forall i, j | 0 <= i < j < |r|
      ensures r[i].id < r[j].id && r[i].url != r[j].url
    {
      assert r[j] == tail[j - 1];
      if i > 0 {
        assert r[i] == tail[i - 1];
      } else {
        assert r[j] in tail;
      }
    }
  }

  /** After `deleteBookmark(id)` no row has that id, and the constraints still hold. */
  lemma DeleteBookmarkValid(t: Table, id: int)
    requires Valid(t)
    ensures Valid(DeleteBookmark(t, id).0)
    ensures GetBookmark(DeleteBookmark(t, id).0, id) == None
  {
    WithoutOrdered(t.rows, id);
    var rows := DeleteBookmark(t, id).0.rows;
    forall i | 0 <= i < |rows|
      ensures 1 <= rows[i].id <= t.lastId
    {
      assert rows[i] in t.rows;
    }
  }

  /** The route passes whatever `parseInt` reads, negative numbers and 0 included; no row
      has such an id, so the call reports false and leaves the table as it was. */
  lemma DeleteNonPositiveId(t: Table, id: int)
    requires Valid(t) && id <= 0
    ensures DeleteBookmark(t, id) == (t, false)
  {
    WithoutAbsent(t.rows, id);
  }

  lemma {:induction false} WithoutAbsent(rows: seq<Bookmark>, id: int)
    requires forall i :: 0 <= i < |rows| ==> rows[i].id != id
    ensures Without(rows, id) == rows
  {
    if rows != [] {
      WithoutAbsent(rows[1..], id);
    }
  }

  // ---------------------------------------------------------------------
  // getBookmarks: ORDER BY created_at DESC

  /** SQLite's BINARY collation on TEXT: byte order of UTF-8, which is code-point order. */
  predicate TextLe(a: string, b: string) {
    if a == [] then true
    else if b == [] then false
    else if a[0] != b[0] then a[0] < b[0]
    else TextLe(a[1..], b[1..])
  }

  lemma {:induction false} TextLeTotal(a: string, b: string)
    ensures TextLe(a, b) || TextLe(b, a)
  {
    if a != [] && b != [] && a[0] == b[0] {
      TextLeTotal(a[1..], b[1..]);
    }
  }

  lemma {:induction false} TextLeTransitive(a: string, b: string, c: string)
    requires TextLe(a, b) && TextLe(b, c)
    ensures TextLe(a, c)
  {
    if a != [] && b != [] && c != [] && a[0] == b[0] && b[0] == c[0] {
      TextLeTransitive(a[1..], b[1..], c[1..]);
    }
  }

  /** Newest first: `created_at` never increases along the sequence. */
  predicate NewestFirst(s: seq<Bookmark>) {
    forall i, j :: 0 <= i < j < |s| ==> TextLe(s[j].createdAt, s[i].createdAt)
  }

  function Insert(b: Bookmark, s: seq<Bookmark>): seq<Bookmark> {
    if s == [] then [b]
    else if TextLe(s[0].createdAt, b.createdAt) then [b] + s
    else [s[0]] + Insert(b, s[1..])
  }

  lemma {:induction false} InsertPermutes(b: Bookmark, s: seq<Bookmark>)
    ensures multiset(Insert(b, s)) == multiset(s) + multiset{b}
  {
    if s != [] && !TextLe(s[0].createdAt, b.createdAt) {
      InsertPermutes(b, s[1..]);
      assert s == [s[0]] + s[1..];
    }
  }

  lemma {:induction false} InsertSorted(b: Bookmark, s: seq<Bookmark>)
    requires NewestFirst(s)
    ensures NewestFirst(Insert(b, s))
    ensures multiset(Insert(b, s)) == multiset(s) + multiset{b}
    ensures forall x :: x in Insert(b, s) ==> x == b || x in s
  {
    InsertPermutes(b, s);
    if s == [] {
    } else if TextLe(s[0].createdAt, b.createdAt) {
      InsertFront(b, s);
    } else {
      TextLeTotal(s[0].createdAt, b.createdAt);
      InsertSorted(b, s[1..]);
      InsertBehindHead(b, s);
    }
  }

  /** A row no older than the head goes in front and keeps the order. */
  lemma InsertFront(b: Bookmark, s: seq<Bookmark>)
    requires NewestFirst(s) && s != [] && TextLe(s[0].createdAt, b.createdAt)
    ensures NewestFirst([b] + s)
  {
    forall j | 1 <= j < |s| + 1
      ensures TextLe(([b] + s)[j].createdAt, b.createdAt)
    {
      if j > 1 {
        TextLeTransitive(s[j - 1].createdAt, s[0].createdAt, b.createdAt);
      }
    }
  }

  /** A row older than the head goes into the sorted tail, behind the head. */
  lemma InsertBehindHead(b: Bookmark, s: seq<Bookmark>)
    requires NewestFirst(s) && s != [] && TextLe(b.createdAt, s[0].createdAt)
    requires NewestFirst(Insert(b, s[1..]))
    requires forall x :: x in Insert(b, s[1..]) ==> x == b || x in s[1..]
    ensures NewestFirst([s[0]] + Insert(b, s[1..]))
  {
    var tail := Insert(b, s[1..]);
    forall j | 0 <= j < |tail|
      ensures TextLe(tail[j].createdAt, s[0].createdAt)
    {
      assert tail[j] in tail;
      if tail[j] != b {
        var k :| 0 <= k < |s[1..]| && s[1..][k] == tail[j];
        assert s[k + 1] == tail[j];
      }
    }
  }

  function SortNewestFirst(s: seq<Bookmark>): (r: seq<Bookmark>)
    ensures NewestFirst(r) && multiset(r) == multiset(s)
  {
    if s == [] then []
    else
      var tail := SortNewestFirst(s[1..]);
      SortStep(s, tail);
      Insert(s[0], tail)
  }

  /** Inserting the head into the sorted tail sorts the whole sequence. */
  lemma SortStep(s: seq<Bookmark>, tail: seq<Bookmark>)
    requires s != [] && NewestFirst(tail) && multiset(tail) == multiset(s[1..])
    ensures NewestFirst(Insert(s[0], tail)) && multiset(Insert(s[0], tail)) == multiset(s)
  {
    InsertSorted(s[0], tail);
    assert s == [s[0]] + s[1..];
  }

  /** `getBookmarks()`: every row exactly once, newest `created_at` first
      (SQLite leaves the order of equal timestamps unspecified). */
  function GetBookmarks(t: Table): (r: seq<Bookmark>)
    ensures NewestFirst(r)
    ensures multiset(r) == multiset(t.rows)
  {
    SortNewestFirst(t.rows)
  }

  // ---------------------------------------------------------------------
  // saveAsset

  const AssetPrefix := "/assets/"

  /** `saveAsset(buffer, filename)`: the reference under which the file is served. */
  function SaveAsset(filename: string): (r: string)
    ensures StartsWith(r, AssetPrefix) && r[|AssetPrefix|..] == filename
  {
    AssetPrefix + filename
  }
}
