/** `generateNetscapeBookmarks`: the Netscape bookmark file the export route
    produces, and a reader for exactly that layout. The reader is the
    generator's partner: reading back a generated file yields one link per
    bookmark, in order, with the unescaped URL, title and icon. */
module Netscape {
  import opened Options
  import opened JsString
  import opened HtmlEscape
  import opened BookmarkStore

  const Doctype := "<!DOCTYPE NETSCAPE-Bookmark-file-1>\n"
  const Header := Doctype + HeaderRest
  const HeaderRest := "<!-- This is an automatically generated file.\n     It will be read and overwritten.\n     DO NOT EDIT! -->\n<META HTTP-EQUIV=\"Content-Type\" CONTENT=\"text/html; charset=UTF-8\">\n<TITLE>Bookmarks</TITLE>\n<H1>Bookmarks</H1>\n<DL><p>\n    <DT><H3 ADD_DATE=\""
  const LastModifiedAttr := " LAST_MODIFIED=\""
  const FolderClose := ">QuickMark Bookmarks</H3>\n    <DL><p>\n"
  const Footer := "    </DL><p>\n</DL><p>\n"
  const EntryOpen := "        <DT><A HREF=\""
  const AddDateAttr := " ADD_DATE=\""
  const IconAttr := " ICON_URI=\""
  const EntryClose := "/A>\n"

  /** `Math.floor(new Date(created_at).getTime() / 1000)` as printed: whole seconds, or `NaN`
      when the date does not parse. `dateMillis` stands for the `Date` parser; Dafny's `/`
      rounds down for a positive divisor, as `Math.floor` does. */
  function AddDate(createdAt: string, dateMillis: string -> Option<int>): (r: string)
    ensures '"' !in r && '<' !in r && r != ""
  {
    match dateMillis(createdAt)
    case None => "NaN"
    case Some(ms) => IntToString(ms / 1000)
  }

  /** `bookmark.title || bookmark.url`. */
  function LinkText(b: Bookmark): string {
    if Truthy(b.title) then b.title.value else b.url
  }

  function IconPart(b: Bookmark): string {
    if Truthy(b.faviconPath) then IconAttr + EscapeHtml(b.faviconPath.value) + "\"" else ""
  }

  /** The escaped link text between `>` and `</A>`, and the line end. */
  function TextPart(b: Bookmark): string {
    ">" + EscapeHtml(LinkText(b)) + "<" + EntryClose
  }

  /** One `<DT><A HREF=...>` line of the export. */
  function Entry(b: Bookmark, dateMillis: string -> Option<int>): string {
    EntryOpen + EscapeHtml(b.url) + "\"" + AddDateAttr + AddDate(b.createdAt, dateMillis) + "\""
      + IconPart(b) + TextPart(b)
  }

  function Entries(bs: seq<Bookmark>, dateMillis: string -> Option<int>): string {
    if bs == [] then "" else Entry(bs[0], dateMillis) + Entries(bs[1..], dateMillis)
  }

  /** `generateNetscapeBookmarks(bookmarks)` at clock reading `nowMs` (milliseconds). */
  function Generate(bs: seq<Bookmark>, nowMs: nat, dateMillis: string -> Option<int>): (r: string)
    ensures StartsWith(r, Doctype)
    ensures |Footer| <= |r| && r[|r| - |Footer|..] == Footer
  {
    var ts := NatToString(nowMs / 1000);
    var body := ts + "\"" + LastModifiedAttr + ts + "\"" + FolderClose + Entries(bs, dateMillis);
    Framed(Doctype, HeaderRest, body, Footer);
    Header + body + Footer
  }

  lemma Framed(d: string, h: string, body: string, f: string)
    ensures StartsWith(d + h + body + f, d)
    ensures (d + h + body + f)[|d + h + body + f| - |f|..] == f
  {
    assert d + h + body + f == d + (h + body + f);
    StartsWithAppend(d, h + body + f);
  }

  // ---------------------------------------------------------------------
  // Reading the file back

  /** What a reader of one entry sees, with the HTML entities decoded. */
  datatype Link = Link(href: string, addDate: string, icon: Option<string>, text: string)

  datatype Document = Document(timestamp: string, links: seq<Link>)

  function Strip(s: string, prefix: string): (r: Option<string>)
    ensures r.Some? ==> |r.value| == |s| - |prefix|
  {
    if StartsWith(s, prefix) then Some(s[|prefix|..]) else None
  }

  /** The text before the first `c` and the text after it. */
  function Until(s: string, c: char): (r: Option<(string, string)>)
    ensures r.Some? ==> |r.value.1| < |s|
  {
    var before := BeforeFirst(s, c);
    if |before| < |s| then Some((before, s[|before| + 1..])) else None
  }

  /** Reads the optional `ICON_URI` attribute. */
  function ParseIcon(s: string): (r: Option<(Option<string>, string)>)
    ensures r.Some? ==> |r.value.1| <= |s|
  {
    if StartsWith(s, IconAttr) then
      var v :- Until(s[|IconAttr|..], '"');
      Some((Some(Unescape(v.0)), v.1))
    else Some((None, s))
  }

  /** Reads `>`, the link text and `</A>` followed by a newline. */
  function ParseText(s: string): (r: Option<(string, string)>)
    ensures r.Some? ==> |r.value.1| < |s|
  {
    var rest :- Strip(s, ">");
    var text :- Until(rest, '<');
    var rest :- Strip(text.1, EntryClose);
    Some((Unescape(text.0), rest))
  }

  /** Reads one entry off the front of `s`, returning the rest. */
  function ParseLink(s: string): (r: Option<(Link, string)>)
    ensures r.Some? ==> |r.value.1| < |s|
  {
    var rest :- Strip(s, EntryOpen);
    var href :- Until(rest, '"');
    var rest :- Strip(href.1, AddDateAttr);
    var date :- Until(rest, '"');
    var icon :- ParseIcon(date.1);
    var text :- ParseText(icon.1);
    Some((Link(Unescape(href.0), date.0, icon.0, text.0), text.1))
  }

  function ParseLinks(s: string): (seq<Link>, string)
    decreases |s|
  {
    match ParseLink(s)
    case None => ([], s)
    case Some((l, rest)) =>
      var (ls, tail) := ParseLinks(rest);
      ([l] + ls, tail)
  }

  /** Reads a whole bookmark file in the layout the generator writes. */
  function Parse(doc: string): Option<Document> {
    var rest :- Strip(doc, Header);
    var added :- Until(rest, '"');
    var rest :- Strip(added.1, LastModifiedAttr);
    var modified :- Until(rest, '"');
    var rest :- Strip(modified.1, FolderClose);
    var (links, tail) := ParseLinks(rest);
    if tail == Footer && added.0 == modified.0 then Some(Document(added.0, links)) else None
  }

  /** What the entry for `b` says. */
  function LinkOf(b: Bookmark, dateMillis: string -> Option<int>): Link {
    Link(b.url, AddDate(b.createdAt, dateMillis),
         if Truthy(b.faviconPath) then Some(b.faviconPath.value) else None,
         LinkText(b))
  }

  function LinksOf(bs: seq<Bookmark>, dateMillis: string -> Option<int>): (r: seq<Link>)
    ensures |r| == |bs|
    ensures forall i :: 0 <= i < |bs| ==> r[i] == LinkOf(bs[i], dateMillis)
  {
    if bs == [] then [] else [LinkOf(bs[0], dateMillis)] + LinksOf(bs[1..], dateMillis)
  }

  // ---------------------------------------------------------------------
  // Round trip

  lemma StripAppend(p: string, rest: string)
    ensures Strip(p + rest, p) == Some(rest)
  {
    StartsWithAppend(p, rest);
    assert (p + rest)[|p|..] == rest;
  }

  lemma UntilAppend(x: string, c: char, rest: string)
    requires c !in x
    ensures Until(x + [c] + rest, c) == Some((x, rest))
  {
    BeforeFirstAppend(x, c, rest);
    assert (x + [c] + rest)[|x| + 1..] == rest;
  }

  lemma EscapedHasNo(s: string, c: char)
    requires c == '"' || c == '<'
    ensures c !in EscapeHtml(s)
  {
    var e := EscapeHtml(s);
    assert forall i :: 0 <= i < |e| ==> e[i] != c;
  }

  lemma {:induction false} ParseTextAppend(t: string, more: string)
    requires '<' !in t
    ensures ParseText(">" + t + "<" + EntryClose + more) == Some((Unescape(t), more))
  {
    var s6 := t + ['<'] + (EntryClose + more);
    assert ">" + t + "<" + EntryClose + more == ">" + s6;
    StripAppend(">", s6);
    UntilAppend(t, '<', EntryClose + more);
    StripAppend(EntryClose, more);
  }

  lemma ParseIconAppend(b: Bookmark, s5: string)
    requires |s5| > 0 && s5[0] == '>'
    ensures ParseIcon(IconPart(b) + s5)
      == Some((if Truthy(b.faviconPath) then Some(b.faviconPath.value) else None, s5))
  {
    if Truthy(b.faviconPath) {
      var f := EscapeHtml(b.faviconPath.value);
      var rest := f + ['"'] + s5;
      assert IconPart(b) + s5 == IconAttr + rest;
      StripAppend(IconAttr, rest);
      EscapedHasNo(b.faviconPath.value, '"');
      UntilAppend(f, '"', s5);
      UnescapeEscape(b.faviconPath.value);
    } else {
      assert IconPart(b) + s5 == s5;
      StartsWithFirst(s5, IconAttr);
    }
  }

  lemma {:induction false} EntryShape(b: Bookmark, dateMillis: string -> Option<int>, more: string)
    ensures Entry(b, dateMillis) + more
      == EntryOpen + (EscapeHtml(b.url) + ['"'] + (AddDateAttr + (AddDate(b.createdAt, dateMillis) + ['"']
           + (IconPart(b) + (TextPart(b) + more)))))
  {
    Reassociate(EntryOpen, EscapeHtml(b.url), AddDateAttr, AddDate(b.createdAt, dateMillis), IconPart(b),
                TextPart(b), more);
  }

  lemma Reassociate(a: string, u: string, c: string, d: string, i: string, t: string, m: string)
    ensures a + u + ['"'] + c + d + ['"'] + i + t + m
         == a + (u + ['"'] + (c + (d + ['"'] + (i + (t + m)))))
  {
  }

  /** Reading one generated entry gives back the bookmark's URL, date, icon and link text. */
  lemma {:induction false} ParseEntry(b: Bookmark, dateMillis: string -> Option<int>, more: string)
    ensures ParseLink(Entry(b, dateMillis) + more) == Some((LinkOf(b, dateMillis), more))
  {
    var u := EscapeHtml(b.url);
    var d := AddDate(b.createdAt, dateMillis);
    var t := EscapeHtml(LinkText(b));
    var s5 := TextPart(b) + more;
    var s4 := IconPart(b) + s5;
    var s3 := d + ['"'] + s4;
    var s2 := AddDateAttr + s3;
    var s1 := u + ['"'] + s2;
    EntryShape(b, dateMillis, more);
    StripAppend(EntryOpen, s1);
    EscapedHasNo(b.url, '"');
    UntilAppend(u, '"', s2);
    StripAppend(AddDateAttr, s3);
    UntilAppend(d, '"', s4);
    ParseIconAppend(b, s5);
    EscapedHasNo(LinkText(b), '<');
    ParseTextAppend(t, more);
    UnescapeEscape(b.url);
    UnescapeEscape(LinkText(b));
  }

  lemma FooterIsNotEntry()
    ensures ParseLink(Footer) == None
  {
    StartsWithDiffer(Footer, EntryOpen, 4);
  }

  lemma {:induction false} ParseEntries(bs: seq<Bookmark>, dateMillis: string -> Option<int>, tail: string)
    requires ParseLink(tail) == None
    ensures ParseLinks(Entries(bs, dateMillis) + tail) == (LinksOf(bs, dateMillis), tail)
  {
    if bs == [] {
      assert Entries(bs, dateMillis) + tail == tail;
    } else {
      var rest := Entries(bs[1..], dateMillis) + tail;
      assert Entries(bs, dateMillis) + tail == Entry(bs[0], dateMillis) + rest;
      ParseEntry(bs[0], dateMillis, rest);
      ParseEntries(bs[1..], dateMillis, tail);
    }
  }

  lemma HeaderShape(h: string, ts: string, lm: string, fc: string, es: string, f: string)
    ensures h + (ts + ['"'] + lm + ts + ['"'] + fc + es) + f
         == h + (ts + ['"'] + (lm + (ts + ['"'] + (fc + (es + f)))))
  {
  }

  /** Reading a generated file back gives its timestamp and one link per bookmark, in order. */
  lemma {:induction false} RoundTrip(bs: seq<Bookmark>, nowMs: nat, dateMillis: string -> Option<int>)
    ensures Parse(Generate(bs, nowMs, dateMillis))
         == Some(Document(NatToString(nowMs / 1000), LinksOf(bs, dateMillis)))
  {
    var ts := NatToString(nowMs / 1000);
    var es := Entries(bs, dateMillis);
    var s4 := FolderClose + (es + Footer);
    var s3 := ts + ['"'] + s4;
    var s2 := LastModifiedAttr + s3;
    var s1 := ts + ['"'] + s2;
    HeaderShape(Header, ts, LastModifiedAttr, FolderClose, es, Footer);
    assert Generate(bs, nowMs, dateMillis) == Header + s1;
    assert '"' !in ts by {
      assert forall i :: 0 <= i < |ts| ==> IsDigit(ts[i]);
    }
    StripAppend(Header, s1);
    UntilAppend(ts, '"', s2);
    StripAppend(LastModifiedAttr, s3);
    UntilAppend(ts, '"', s4);
    StripAppend(FolderClose, es + Footer);
    FooterIsNotEntry();
    ParseEntries(bs, dateMillis, Footer);
  }

  /** The export holds exactly one entry per bookmark, in input order: its HREF is the URL,
      its text the title (the URL when the title is null or empty), and it carries an
      `ICON_URI` exactly when the favicon path is non-empty. */
  lemma {:induction false} ExportedLinks(bs: seq<Bookmark>, nowMs: nat, dateMillis: string -> Option<int>)
    ensures var doc := Parse(Generate(bs, nowMs, dateMillis));
      && doc.Some?
      && |doc.value.links| == |bs|
      && forall i :: 0 <= i < |bs| ==>
           var l := doc.value.links[i];
           && l.href == bs[i].url
           && l.text == (if Truthy(bs[i].title) then bs[i].title.value else bs[i].url)
           && (l.icon.Some? <==> Truthy(bs[i].faviconPath))
           && (l.icon.Some? ==> l.icon.value == bs[i].faviconPath.value)
  {
    RoundTrip(bs, nowMs, dateMillis);
  }
}
