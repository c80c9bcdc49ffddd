/** The export route's `escapeHtml`: a single pass that replaces the five
    markup-significant characters by entities and copies everything else. */
module HtmlEscape {
  import opened JsString

  /** The characters `escapeHtml` replaces. */
  predicate IsSpecial(c: char) {
    c == '&' || c == '<' || c == '>' || c == '"' || c == '\''
  }

  /** A string free of the five special characters. */
  predicate Plain(s: string) {
    forall i :: 0 <= i < |s| ==> !IsSpecial(s[i])
  }

  /** The entity each special character becomes; other characters stand for themselves. */
  function EscapeChar(c: char): (r: string)
    ensures IsSpecial(c) ==> |r| >= 4 && r[0] == '&'
    ensures !IsSpecial(c) ==> r == [c]
  {
    match c
    case '&' => "&amp;"
    case '<' => "&lt;"
    case '>' => "&gt;"
    case '"' => "&quot;"
    case '\'' => "&#039;"
    case _ => [c]
  }

  /** `escapeHtml(text)`. */
  function EscapeHtml(s: string): (r: string)
    ensures |r| >= |s|
    ensures forall i :: 0 <= i < |r| ==> r[i] != '<' && r[i] != '>' && r[i] != '"' && r[i] != '\''
  {
    if s == [] then [] else EscapeChar(s[0]) + EscapeHtml(s[1..])
  }

  /** The five entities `escapeHtml` produces. */
  predicate EntityAt(s: string, i: nat) {
    && i <= |s|
    && (|| StartsWith(s[i..], "&amp;") || StartsWith(s[i..], "&lt;") || StartsWith(s[i..], "&gt;")
        || StartsWith(s[i..], "&quot;") || StartsWith(s[i..], "&#039;"))
  }

  /** Single-pass decoding of the five entities; any other text is copied. */
  function Unescape(s: string): string
    decreases |s|
  {
    if s == [] then []
    else if StartsWith(s, "&amp;") then "&" + Unescape(s[5..])
    else if StartsWith(s, "&lt;") then "<" + Unescape(s[4..])
    else if StartsWith(s, "&gt;") then ">" + Unescape(s[4..])
    else if StartsWith(s, "&quot;") then "\"" + Unescape(s[6..])
    else if StartsWith(s, "&#039;") then "'" + Unescape(s[6..])
    else [s[0]] + Unescape(s[1..])
  }

  // ---------------------------------------------------------------------
  // Properties

  lemma {:induction false} EscapeAppend(a: string, b: string)
    ensures EscapeHtml(a + b) == EscapeHtml(a) + EscapeHtml(b)
  {
    if a == [] {
      assert a + b == b;
    } else {
      assert (a + b)[0] == a[0];
      assert (a + b)[1..] == a[1..] + b;
      EscapeAppend(a[1..], b);
    }
  }

  /** Every `&` in the output begins one of the five entities. */
  lemma {:induction false} AmpersandsBeginEntities(s: string)
    ensures forall i :: 0 <= i < |EscapeHtml(s)| && EscapeHtml(s)[i] == '&' ==> EntityAt(EscapeHtml(s), i)
  {
    if s != [] {
      var e := EscapeChar(s[0]);
      var rest := EscapeHtml(s[1..]);
      AmpersandsBeginEntities(s[1..]);
      forall i | 0 <= i < |e + rest| && (e + rest)[i] == '&'
        ensures EntityAt(e + rest, i)
      {
        if i == 0 {
          assert (e + rest)[0..] == e + rest;
          StartsWithAppend(e, rest);
        } else if i >= |e| {
          assert (e + rest)[i..] == rest[i - |e|..];
          assert EntityAt(rest, i - |e|);
        }
      }
    }
  }

  /** `escapeHtml` changes a string exactly when it holds one of the five characters. */
  lemma {:induction false} EscapeIdentityIffPlain(s: string)
    ensures EscapeHtml(s) == s <==> Plain(s)
    ensures |EscapeHtml(s)| == |s| <==> Plain(s)
  {
    if s != [] {
      EscapeIdentityIffPlain(s[1..]);
      if Plain(s) {
        assert Plain(s[1..]);
        assert s == [s[0]] + s[1..];
      } else if IsSpecial(s[0]) {
        assert |EscapeHtml(s)| > |s|;
      } else {
        assert !Plain(s[1..]) by {
          var k :| 0 <= k < |s| && IsSpecial(s[k]);
          assert s[1..][k - 1] == s[k];
        }
        assert |EscapeHtml(s)| > |s|;
      }
    }
  }

  lemma {:induction false} UnescapeEscapeChar(c: char, t: string)
    ensures Unescape(EscapeChar(c) + t) == [c] + Unescape(t)
  {
    var e := EscapeChar(c);
    var s := e + t;
    assert s[|e|..] == t;
    StartsWithAppend(e, t);
    if c == '&' {
    } else if c == '<' {
      StartsWithDiffer(s, "&amp;", 1);
    } else if c == '>' {
      StartsWithDiffer(s, "&amp;", 1);
      StartsWithDiffer(s, "&lt;", 1);
    } else if c == '"' {
      StartsWithDiffer(s, "&amp;", 1);
      StartsWithDiffer(s, "&lt;", 1);
      StartsWithDiffer(s, "&gt;", 1);
    } else if c == '\'' {
      StartsWithDiffer(s, "&amp;", 1);
      StartsWithDiffer(s, "&lt;", 1);
      StartsWithDiffer(s, "&gt;", 1);
      StartsWithDiffer(s, "&quot;", 1);
    } else {
      assert s[0] == c && s[1..] == t;
      StartsWithDiffer(s, "&amp;", 0);
      StartsWithDiffer(s, "&lt;", 0);
      StartsWithDiffer(s, "&gt;", 0);
      StartsWithDiffer(s, "&quot;", 0);
      StartsWithDiffer(s, "&#039;", 0);
    }
  }

  /** Single-pass decoding of the five entities recovers the input. */
  lemma {:induction false} UnescapeEscape(s: string)
    ensures Unescape(EscapeHtml(s)) == s
  {
    if s != [] {
      UnescapeEscapeChar(s[0], EscapeHtml(s[1..]));
      UnescapeEscape(s[1..]);
    }
  }

  /** Escaping an escaped string escapes again, unless there was nothing to escape. */
  lemma {:induction false} EscapeTwiceIffPlain(s: string)
    ensures EscapeHtml(EscapeHtml(s)) == EscapeHtml(s) <==> Plain(s)
  {
    var e := EscapeHtml(s);
    EscapeIdentityIffPlain(s);
    EscapeIdentityIffPlain(e);
    if !Plain(s) {
      var k :| 0 <= k < |s| && IsSpecial(s[k]);
      SpecialBecomesAmpersand(s, k);
    }
  }

  lemma SpecialBecomesAmpersand(s: string, k: nat)
    requires k < |s| && IsSpecial(s[k])
    ensures !Plain(EscapeHtml(s))
  {
    assert s == s[..k] + s[k..];
    assert s[k..] == [s[k]] + s[k + 1..];
    EscapeAppend(s[..k], s[k..]);
    EscapeAppend([s[k]], s[k + 1..]);
    var j := |EscapeHtml(s[..k])|;
    assert EscapeHtml(s)[j] == '&';
  }

  lemma {:induction false} NotIdempotent()
    ensures EscapeHtml("&") == "&amp;"
    ensures EscapeHtml(EscapeHtml("&")) == "&amp;amp;"
  {
    EscapeAppend("&", "amp;");
    assert EscapeHtml("amp;") == "amp;" by {
      EscapeIdentityIffPlain("amp;");
    }
  }
}
