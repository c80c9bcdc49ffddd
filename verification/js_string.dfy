/** The ECMAScript string operations the sources rely on (`startsWith`,
    `includes`, `trim`, `toLowerCase`, `lastIndexOf`, `split`, `substring`
    and number-to-string), over Dafny strings of Unicode scalar values. */
module JsString {

  predicate StartsWith(s: string, prefix: string) {
    |prefix| <= |s| && s[..|prefix|] == prefix
  }

  /** `s.includes(part)`. */
  predicate Contains(s: string, part: string) {
    exists i :: 0 <= i <= |s| && OccursAt(s, part, i)
  }

  /** `part` occurs in `s` starting at index `i`. */
  predicate OccursAt(s: string, part: string, i: int) {
    0 <= i && i + |part| <= |s| && s[i..i + |part|] == part
  }

  lemma StartsWithAppend(prefix: string, rest: string)
    ensures StartsWith(prefix + rest, prefix)
  {
    assert (prefix + rest)[..|prefix|] == prefix;
  }

  lemma StartsWithFirst(s: string, prefix: string)
    requires |prefix| > 0 && |s| > 0 && s[0] != prefix[0]
    ensures !StartsWith(s, prefix)
  {
    StartsWithDiffer(s, prefix, 0);
  }

  lemma StartsWithDiffer(s: string, prefix: string, k: nat)
    requires k < |prefix| && k < |s| && s[k] != prefix[k]
    ensures !StartsWith(s, prefix)
  {
    if |prefix| <= |s| {
      assert s[..|prefix|][k] == s[k];
    }
  }

  // ---------------------------------------------------------------------
  // trim()

  /** ECMAScript WhiteSpace and LineTerminator code points, which `trim` removes. */
  predicate IsSpace(c: char) {
    || c == '\t' || c == '\n' || c == '\U{000B}' || c == '\U{000C}' || c == '\r'
    || c == ' ' || c == '\U{00A0}' || c == '\U{1680}'
    || ('\U{2000}' <= c <= '\U{200A}')
    || c == '\U{2028}' || c == '\U{2029}' || c == '\U{202F}' || c == '\U{205F}'
    || c == '\U{3000}' || c == '\U{FEFF}'
  }

  function TrimStart(s: string): (r: string)
    ensures |r| <= |s| && r == s[|s| - |r|..]
    ensures r == "" || !IsSpace(r[0])
    ensures forall i :: 0 <= i < |s| - |r| ==> IsSpace(s[i])
  {
    if |s| > 0 && IsSpace(s[0]) then
      var r := TrimStart(s[1..]);
      TrimStartStep(s, r);
      r
    else s
  }

  lemma TrimStartStep(s: string, r: string)
    requires |s| > 0 && IsSpace(s[0]) && |r| <= |s| - 1 && r == s[1..][|s| - 1 - |r|..]
    requires forall i :: 0 <= i < |s| - 1 - |r| ==> IsSpace(s[1..][i])
    ensures r == s[|s| - |r|..]
    ensures forall i :: 0 <= i < |s| - |r| ==> IsSpace(s[i])
  {
    forall i | 0 < i < |s| - |r|
      ensures IsSpace(s[i])
    {
      assert s[i] == s[1..][i - 1];
    }
  }

  function TrimEnd(s: string): (r: string)
    ensures |r| <= |s| && r == s[..|r|]
    ensures r == "" || !IsSpace(r[|r| - 1])
    ensures forall i :: |r| <= i < |s| ==> IsSpace(s[i])
  {
    if |s| > 0 && IsSpace(s[|s| - 1]) then TrimEnd(s[..|s| - 1]) else s
  }

  /** Nothing but white space (the empty string included). */
  predicate Blank(s: string) {
    forall i :: 0 <= i < |s| ==> IsSpace(s[i])
  }

  /** Neither starts nor ends with white space. */
  predicate Trimmed(s: string) {
    s == "" || (!IsSpace(s[0]) && !IsSpace(s[|s| - 1]))
  }

  /** `r` occurs in `s` at `k` with nothing but white space before and after it. */
  predicate Surrounded(s: string, r: string, k: int) {
    OccursAt(s, r, k) && Blank(s[..k]) && Blank(s[k + |r|..])
  }

  /** `s.trim()`: `s` without its leading and trailing white space. */
  function Trim(s: string): (r: string)
    ensures Trimmed(r)
    ensures exists k :: Surrounded(s, r, k)
    ensures Contains(s, r)
    ensures r == "" <==> Blank(s)
  {
    TrimFacts(s);
    TrimEnd(TrimStart(s))
  }

  lemma TrimFacts(s: string)
    ensures Trimmed(TrimEnd(TrimStart(s)))
    ensures Surrounded(s, TrimEnd(TrimStart(s)), |s| - |TrimStart(s)|)
    ensures Contains(s, TrimEnd(TrimStart(s)))
    ensures TrimEnd(TrimStart(s)) == "" <==> Blank(s)
  {
    var t := TrimStart(s);
    var r := TrimEnd(t);
    var d := |s| - |t|;
    assert OccursAt(s, r, d);
    TrimSurrounded(s);
    if r == "" {
      // a non-empty `t` would start with a non-space, which `TrimEnd` would keep
      assert t == "";
    } else {
      assert s[d] == t[0] == r[0];
    }
  }

  lemma TrimSurrounded(s: string)
    ensures Surrounded(s, TrimEnd(TrimStart(s)), |s| - |TrimStart(s)|)
  {
    var t := TrimStart(s);
    var r := TrimEnd(t);
    PrefixOfSuffix(s, t, r, |s| - |t|);
    SurroundedIntro(s, r, |s| - |t|);
  }

  /** A white-space-padded prefix `r` of the suffix `t` of `s` at `d` occurs in `s` at `d`. */
  lemma PrefixOfSuffix(s: string, t: string, r: string, d: int)
    requires 0 <= d <= |s| && t == s[d..]
    requires |r| <= |t| && r == t[..|r|]
    requires forall i :: |r| <= i < |t| ==> IsSpace(t[i])
    ensures OccursAt(s, r, d)
    ensures forall i :: d + |r| <= i < |s| ==> IsSpace(s[i])
  {
    forall i | d + |r| <= i < |s|
      ensures IsSpace(s[i])
    {
      assert s[i] == t[i - d];
    }
  }

  lemma SurroundedIntro(s: string, r: string, k: int)
    requires OccursAt(s, r, k)
    requires forall i :: 0 <= i < k ==> IsSpace(s[i])
    requires forall i :: k + |r| <= i < |s| ==> IsSpace(s[i])
    ensures Surrounded(s, r, k)
  {
    BlankPrefix(s, k);
    BlankSuffix(s, k + |r|);
  }

  lemma BlankPrefix(s: string, k: int)
    requires 0 <= k <= |s|
    requires forall i :: 0 <= i < k ==> IsSpace(s[i])
    ensures Blank(s[..k])
  {
    var u := s[..k];
    forall i | 0 <= i < |u|
      ensures IsSpace(u[i])
    {
      assert u[i] == s[i];
    }
  }

  lemma BlankSuffix(s: string, k: int)
    requires 0 <= k <= |s|
    requires forall i :: k <= i < |s| ==> IsSpace(s[i])
    ensures Blank(s[k..])
  {
    var u := s[k..];
    forall i | 0 <= i < |u|
      ensures IsSpace(u[i])
    {
      assert u[i] == s[k + i];
    }
  }

  /** The trimmed text is the only non-empty trimmed infix with white space alone around it. */
  lemma TrimUnique(s: string, x: string, k: int)
    requires x != "" && Trimmed(x) && Surrounded(s, x, k)
    ensures Trim(s) == x
  {
    var r := TrimEnd(TrimStart(s));
    var j := |s| - |TrimStart(s)|;
    TrimmedNonEmpty(s, x, k);
    TrimSurrounded(s);
    SurroundedStart(s, x, k, r, j);
    SurroundedStart(s, r, j, x, k);
    SurroundedEnd(s, x, k, r, j);
    SurroundedEnd(s, r, j, x, k);
    SameOccurrence(s, x, r, k);
  }

  lemma SameOccurrence(s: string, x: string, y: string, k: int)
    requires |x| == |y| && OccursAt(s, x, k) && OccursAt(s, y, k)
    ensures x == y
  {
  }

  /** A string holding a non-space keeps a non-empty, trimmed text. */
  lemma TrimmedNonEmpty(s: string, x: string, k: int)
    requires x != "" && Trimmed(x) && OccursAt(s, x, k)
    ensures TrimEnd(TrimStart(s)) != "" && Trimmed(TrimEnd(TrimStart(s)))
  {
    TrimFacts(s);
    assert s[k] == x[0];
  }

  /** What lies before and after a surrounded text is white space. */
  lemma SurroundedSpaces(s: string, x: string, k: int)
    requires Surrounded(s, x, k)
    ensures forall i :: 0 <= i < k ==> IsSpace(s[i])
    ensures forall i :: k + |x| <= i < |s| ==> IsSpace(s[i])
  {
    forall i | 0 <= i < k
      ensures IsSpace(s[i])
    {
      assert s[..k][i] == s[i];
    }
    forall i | k + |x| <= i < |s|
      ensures IsSpace(s[i])
    {
      assert s[k + |x|..][i - (k + |x|)] == s[i];
    }
  }

  /** Of two trimmed, non-empty texts with white space alone around them, neither starts
      before the other... */
  lemma SurroundedStart(s: string, x: string, k: int, y: string, j: int)
    requires x != "" && Trimmed(x) && Surrounded(s, x, k)
    requires y != "" && Trimmed(y) && Surrounded(s, y, j)
    ensures k <= j
  {
    SurroundedSpaces(s, x, k);
    assert !IsSpace(s[j]) by {
      assert s[j] == y[0];
    }
  }

  /** ... nor ends before it. */
  lemma SurroundedEnd(s: string, x: string, k: int, y: string, j: int)
    requires x != "" && Trimmed(x) && Surrounded(s, x, k)
    requires y != "" && Trimmed(y) && Surrounded(s, y, j)
    ensures j + |y| <= k + |x|
  {
    SurroundedSpaces(s, x, k);
    assert !IsSpace(s[j + |y| - 1]) by {
      assert s[j + |y| - 1] == y[|y| - 1];
    }
  }

  /** Leading white space does not change the trimmed text. */
  lemma TrimLeadingSpace(c: char, s: string)
    requires IsSpace(c)
    ensures Trim([c] + s) == Trim(s)
  {
    assert ([c] + s)[1..] == s;
  }

  // ---------------------------------------------------------------------
  // toLowerCase()

  function LowerChar(c: char): (d: char)
  {
    if 'A' <= c <= 'Z' then (c as int - 'A' as int + 'a' as int) as char else c
  }

  /** `s.toLowerCase()`, restricted to the ASCII letters. */
  function ToLower(s: string): (r: string)
    ensures |r| == |s|
    ensures forall i :: 0 <= i < |s| ==> r[i] == LowerChar(s[i])
  {
    if s == [] then [] else [LowerChar(s[0])] + ToLower(s[1..])
  }

  // ---------------------------------------------------------------------
  // lastIndexOf(), split(), substring()

  /** `s.lastIndexOf(c)` for a one-character needle: -1 when `c` does not occur. */
  function LastIndexOf(s: string, c: char): (r: int)
    ensures -1 <= r < |s|
    ensures r >= 0 ==> s[r] == c
    ensures forall i :: r < i < |s| ==> s[i] != c
  {
    if s == [] then -1
    else if s[|s| - 1] == c then |s| - 1
    else LastIndexOf(s[..|s| - 1], c)
  }

  lemma {:induction false} LastIndexOfAppend(a: string, c: char, b: string)
    requires c !in b
    ensures LastIndexOf(a + [c] + b, c) == |a|
  {
    if b != [] {
      var b' := b[..|b| - 1];
      assert (a + [c] + b)[..|a + [c] + b| - 1] == a + [c] + b';
      LastIndexOfAppend(a, c, b');
    }
  }

  lemma LastIndexOfAbsent(s: string, c: char)
    requires c !in s
    ensures LastIndexOf(s, c) == -1
  {
  }

  /** `s.split(c)` for a one-character separator: every fragment, empty ones included. */
  function Split(s: string, c: char): (r: seq<string>)
    ensures |r| >= 1
    ensures forall i :: 0 <= i < |r| ==> c !in r[i]
    decreases |s|
  {
    var k := LastIndexOf(s, c);
    if k < 0 then [s] else Split(s[..k], c) + [s[k + 1..]]
  }

  /** Appending a separator and a separator-free tail adds exactly that tail as a fragment. */
  lemma SplitAppend(a: string, c: char, b: string)
    requires c !in b
    ensures Split(a + [c] + b, c) == Split(a, c) + [b]
  {
    var s := a + [c] + b;
    LastIndexOfAppend(a, c, b);
    assert s[..|a|] == a;
    assert s[|a| + 1..] == b;
  }

  /** The last fragment is what follows the last separator. */
  lemma SplitAtLast(s: string, c: char)
    requires LastIndexOf(s, c) >= 0
    ensures var k := LastIndexOf(s, c);
      Split(s, c) == Split(s[..k], c) + [s[k + 1..]]
  {
  }

  /** Without the separator, the whole string is the only fragment. */
  lemma SplitAbsent(s: string, c: char)
    requires c !in s
    ensures Split(s, c) == [s]
  {
    LastIndexOfAbsent(s, c);
  }

  /** `parts.join(c)`. */
  function Join(parts: seq<string>, c: char): string {
    if parts == [] then ""
    else if |parts| == 1 then parts[0]
    else Join(parts[..|parts| - 1], c) + [c] + parts[|parts| - 1]
  }

  /** Joining the fragments with the separator gives back the string. */
  lemma {:induction false} SplitJoin(s: string, c: char)
    ensures Join(Split(s, c), c) == s
    decreases |s|
  {
    var k := LastIndexOf(s, c);
    if k >= 0 {
      var ps := Split(s[..k], c);
      SplitJoin(s[..k], c);
      assert (ps + [s[k + 1..]])[..|ps|] == ps;
      assert s == s[..k] + [c] + s[k + 1..];
    }
  }

  /** The text after the last `c`, or all of `s` when `c` is absent: `s.split(c).pop()`. */
  function AfterLast(s: string, c: char): (r: string)
    ensures c !in r
    ensures r == Split(s, c)[|Split(s, c)| - 1]
  {
    var k := LastIndexOf(s, c);
    if k < 0 then s else s[k + 1..]
  }

  /** The text before the first `c`, or all of `s` when `c` is absent: `s.split(c)[0]`. */
  function BeforeFirst(s: string, c: char): (r: string)
    ensures c !in r
    ensures StartsWith(s, r)
    ensures |r| < |s| ==> s[|r|] == c
  {
    if s == [] then []
    else if s[0] == c then []
    else [s[0]] + BeforeFirst(s[1..], c)
  }

  /** The prefix before the first `c` of a string that continues past it. */
  lemma {:induction false} BeforeFirstAppend(x: string, c: char, rest: string)
    requires c !in x
    ensures BeforeFirst(x + [c] + rest, c) == x
  {
    if x != [] {
      assert (x + [c] + rest)[1..] == x[1..] + [c] + rest;
      BeforeFirstAppend(x[1..], c, rest);
    }
  }

  /** A string without `c` is its own first fragment. */
  lemma {:induction false} BeforeFirstAbsent(x: string, c: char)
    requires c !in x
    ensures BeforeFirst(x, c) == x
  {
    if x != [] {
      BeforeFirstAbsent(x[1..], c);
    }
  }

  /** `s.substring(0, n)` for `n >= 0`. */
  function Take(s: string, n: nat): (r: string)
    ensures |r| <= n && StartsWith(s, r)
    ensures |s| <= n ==> r == s
    ensures |s| > n ==> |r| == n
  {
    if |s| <= n then s else s[..n]
  }

  // ---------------------------------------------------------------------
  // Number to string

  predicate IsDigit(c: char) {
    '0' <= c <= '9'
  }

  /** Decimal rendering of a natural number, as `String(n)` prints it. */
  function NatToString(n: nat): (r: string)
    ensures |r| >= 1
    ensures forall i :: 0 <= i < |r| ==> IsDigit(r[i])
  {
    var d := ['0' + (n % 10) as char];
    if n < 10 then d else NatToString(n / 10) + d
  }

  /** Decimal rendering of an integer, with a leading `-` when negative. */
  function IntToString(i: int): (r: string)
    ensures |r| >= 1
    ensures forall k :: 0 <= k < |r| ==> IsDigit(r[k]) || r[k] == '-'
  {
    if i < 0 then "-" + NatToString(-i) else NatToString(i)
  }
}
