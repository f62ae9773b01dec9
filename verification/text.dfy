/**
  The Python string primitives the search tool leans on, restated over `seq<char>`:
  `str.lower()` (ASCII letters only), the `in` substring test, `str.strip()`,
  `str.split(c)` and `sep.join(parts)`, `html.escape(s)` and `str(n)`.
 */
module Text {
  import opened Wrappers

  // ---------------------------------------------------------------------------
  // Case

  /** `str.lower()` on one character, restricted to the ASCII letters. */
  function LowerChar(c: char): char
  {
    if 'A' <= c <= 'Z' then (c as int + 32) as char else c
  }

  function Lower(s: string): string
  {
    seq(|s|, i requires 0 <= i < |s| => LowerChar(s[i]))
  }

  lemma LowerSlice(s: string, i: nat, j: nat)
    requires i <= j <= |s|
    ensures Lower(s[i..j]) == Lower(s)[i..j]
  {
  }

  lemma LowerAppend(a: string, b: string)
    ensures Lower(a + b) == Lower(a) + Lower(b)
  {
  }

  // ---------------------------------------------------------------------------
  // Substrings

  /** `pat` occurs in `s` at index `i`. */
  predicate OccursAt(pat: string, s: string, i: nat)
  {
    i + |pat| <= |s| && s[i..i + |pat|] == pat
  }

  ghost predicate Occurs(pat: string, s: string)
  {
    exists i: nat :: OccursAt(pat, s, i)
  }

  /** `a` and `b` are equal once lower-cased, compared one character at a time. */
  predicate CiEqual(a: string, b: string)
    decreases |a|
  {
    if a == [] || b == [] then a == b else LowerChar(a[0]) == LowerChar(b[0]) && CiEqual(a[1..], b[1..])
  }

  lemma {:induction false} CiEqualIff(a: string, b: string)
    ensures CiEqual(a, b) <==> |a| == |b| && Lower(a) == Lower(b)
    decreases |a|
  {
    if a != [] && b != [] {
      CiEqualIff(a[1..], b[1..]);
      LowerSlice(a, 1, |a|);
      LowerSlice(b, 1, |b|);
      assert a[1..|a|] == a[1..] && b[1..|b|] == b[1..];
      assert Lower(a)[1..] == Lower(a[1..]) && Lower(b)[1..] == Lower(b[1..]);
      if |a| == |b| && Lower(a) == Lower(b) {
        assert Lower(a)[0] == Lower(b)[0];
      }
      if CiEqual(a, b) {
        assert |a| == |b|;
        assert Lower(a)[0] == LowerChar(a[0]) == LowerChar(b[0]) == Lower(b)[0];
        assert Lower(a)[1..] == Lower(b)[1..];
        assert Lower(a) == [Lower(a)[0]] + Lower(a)[1..];
        assert Lower(b) == [Lower(b)[0]] + Lower(b)[1..];
      }
    }
  }

  /** `pat` occurs case-insensitively in `s` at index `i`. */
  predicate CiOccursAt(pat: string, s: string, i: nat)
  {
    i + |pat| <= |s| && CiEqual(s[i..i + |pat|], pat)
  }

  /** A case-insensitive occurrence is a stretch of `s` whose lower-cased form is the
      lower-cased pattern. */
  lemma CiOccursAtIff(pat: string, s: string, i: nat)
    ensures CiOccursAt(pat, s, i) <==> i + |pat| <= |s| && Lower(s[i..i + |pat|]) == Lower(pat)
  {
    if i + |pat| <= |s| {
      CiEqualIff(s[i..i + |pat|], pat);
    }
  }

  /** Left-to-right scan for `pat`, starting at index `from`. */
  function FindFrom(pat: string, s: string, from: nat): (r: bool)
    ensures r <==> exists i: nat :: from <= i && OccursAt(pat, s, i)
    decreases |s| - from
  {
    if from + |pat| > |s| then false
    else if OccursAt(pat, s, from) then true
    else FindFrom(pat, s, from + 1)
  }

  /** Python's `pat in s`; the empty pattern is in every string. */
  function Contains(pat: string, s: string): (r: bool)
    ensures r <==> Occurs(pat, s)
  {
    FindFrom(pat, s, 0)
  }

  // ---------------------------------------------------------------------------
  // Whitespace

  /** `str.isspace()` for one character: the code points Python treats as whitespace. */
  predicate IsSpace(c: char)
  {
    var n := c as int;
    n == 32 || 9 <= n <= 13 || 28 <= n <= 31 || n == 0x85 || n == 0xA0 || n == 0x1680
    || 0x2000 <= n <= 0x200A || n == 0x2028 || n == 0x2029 || n == 0x202F || n == 0x205F
    || n == 0x3000
  }

  function TrimStart(s: string): (r: string)
    ensures |r| <= |s| && r == s[|s| - |r|..]
    ensures r == [] || !IsSpace(r[0])
    ensures forall i :: 0 <= i < |s| - |r| ==> IsSpace(s[i])
    decreases |s|
  {
    if s != [] && IsSpace(s[0]) then TrimStart(s[1..]) else s
  }

  function TrimEnd(s: string): (r: string)
    ensures |r| <= |s| && r == s[..|r|]
    ensures r == [] || !IsSpace(r[|r| - 1])
    ensures forall i :: |r| <= i < |s| ==> IsSpace(s[i])
    decreases |s|
  {
    if s != [] && IsSpace(s[|s| - 1]) then TrimEnd(s[..|s| - 1]) else s
  }

  /** `str.strip()`: the longest slice of `s` that neither starts nor ends with whitespace,
      obtained by removing only whitespace. */
  function Strip(s: string): (r: string)
    ensures exists a, b :: 0 <= a <= b <= |s| && r == s[a..b]
                          && (forall i :: 0 <= i < a ==> IsSpace(s[i]))
                          && (forall i :: b <= i < |s| ==> IsSpace(s[i]))
    ensures r == [] || (!IsSpace(r[0]) && !IsSpace(r[|r| - 1]))
  {
    var t := TrimStart(s);
    var r := TrimEnd(t);
    assert r == s[|s| - |t|..|s| - |t| + |r|];
    r
  }

  /** A text that neither starts nor ends with whitespace is left as it is. */
  lemma StripUnchanged(s: string)
    requires s == [] || (!IsSpace(s[0]) && !IsSpace(s[|s| - 1]))
    ensures Strip(s) == s
  {
    assert TrimStart(s) == s;
    assert TrimEnd(s) == s;
  }

  /** Stripping takes no character into the text that was not there. */
  lemma StripKeepsCharacters(s: string)
    ensures forall c :: c in Strip(s) ==> c in s
  {
    var t := TrimStart(s);
    var r := TrimEnd(t);
    assert t == s[|s| - |t|..];
    assert r == t[..|r|];
    forall c | c in r
      ensures c in t
    {
    }
  }

  lemma StripIdempotent(s: string)
    ensures Strip(Strip(s)) == Strip(s)
  {
    var r := Strip(s);
    assert TrimStart(r) == r;
    assert TrimEnd(r) == r;
  }

  // ---------------------------------------------------------------------------
  // Split and join

  /** Index of the first `c` in `s`, like `str.find` but absent instead of -1. */
  function IndexOf(s: string, c: char): (r: Option<nat>)
    ensures r.Some? ==> r.value < |s| && s[r.value] == c && c !in s[..r.value]
    ensures r.None? ==> c !in s
    decreases |s|
  {
    if s == [] then None
    else if s[0] == c then Some(0)
    else match IndexOf(s[1..], c)
      case None => None
      case Some(k) => assert s[..k + 1] == [s[0]] + s[1..][..k]; Some(k + 1)
  }

  /** Index of the last `c` in `s`, like `str.rfind` but absent instead of -1. */
  function LastIndexOf(s: string, c: char): (r: Option<nat>)
    ensures r.Some? ==> r.value < |s| && s[r.value] == c && c !in s[r.value + 1..]
    ensures r.None? ==> c !in s
    decreases |s|
  {
    if s == [] then None
    else if s[|s| - 1] == c then Some(|s| - 1)
    else
      var r := LastIndexOf(s[..|s| - 1], c);
      assert r.Some? ==> s[r.value + 1..] == s[..|s| - 1][r.value + 1..] + [s[|s| - 1]];
      assert r.None? ==> s == s[..|s| - 1] + [s[|s| - 1]];
      r
  }

  /** `sep.join(parts)`. */
  function Join(sep: string, parts: seq<string>): string
  {
    if |parts| == 0 then ""
    else if |parts| == 1 then parts[0]
    else parts[0] + sep + Join(sep, parts[1..])
  }

  /** `s.split(c)` for a one-character separator: always at least one part, no part holds
      the separator, and joining the parts back with it restores `s`. */
  function Split(s: string, c: char): (r: seq<string>)
    ensures |r| >= 1
    ensures forall k :: 0 <= k < |r| ==> c !in r[k]
    ensures Join([c], r) == s
    decreases |s|
  {
    match IndexOf(s, c)
    case None => [s]
    case Some(k) =>
      var rest := Split(s[k + 1..], c);
      assert s == s[..k] + [c] + s[k + 1..];
      [s[..k]] + rest
  }

  /** Index in `Join(sep, parts)` at which part `k` starts. */
  function PartStart(sep: string, parts: seq<string>, k: nat): nat
    requires k < |parts|
  {
    if k == 0 then 0 else |parts[0]| + |sep| + PartStart(sep, parts[1..], k - 1)
  }

  /** The layout of a join: each part at its start index, one separator between neighbours,
      and the last part running to the end. */
  lemma JoinLayout(sep: string, parts: seq<string>)
    requires parts != []
    ensures forall k :: 0 <= k < |parts| ==> OccursAt(parts[k], Join(sep, parts), PartStart(sep, parts, k))
    ensures forall k :: 0 <= k < |parts| - 1 ==> OccursAt(sep, Join(sep, parts), PartStart(sep, parts, k) + |parts[k]|)
    ensures forall k :: 0 <= k < |parts| - 1 ==> PartStart(sep, parts, k + 1) == PartStart(sep, parts, k) + |parts[k]| + |sep|
    ensures PartStart(sep, parts, |parts| - 1) + |parts[|parts| - 1]| == |Join(sep, parts)|
  {
    forall k | 0 <= k < |parts|
      ensures OccursAt(parts[k], Join(sep, parts), PartStart(sep, parts, k))
    {
      JoinPartAt(sep, parts, k);
    }
    forall k | 0 <= k < |parts| - 1
      ensures OccursAt(sep, Join(sep, parts), PartStart(sep, parts, k) + |parts[k]|)
      ensures PartStart(sep, parts, k + 1) == PartStart(sep, parts, k) + |parts[k]| + |sep|
    {
      JoinSepAt(sep, parts, k);
    }
    JoinLastPart(sep, parts);
  }

  lemma {:induction false} JoinPartAt(sep: string, parts: seq<string>, k: nat)
    requires k < |parts|
    ensures OccursAt(parts[k], Join(sep, parts), PartStart(sep, parts, k))
    decreases k
  {
    var s := Join(sep, parts);
    if |parts| > 1 {
      var rest := parts[1..];
      var j := Join(sep, rest);
      assert s == parts[0] + sep + j;
      if k == 0 {
        assert s[..|parts[0]|] == parts[0];
      } else {
        var o := |parts[0]| + |sep|;
        var a := PartStart(sep, rest, k - 1);
        JoinPartAt(sep, rest, k - 1);
        assert parts[k] == rest[k - 1];
        assert s[o + a..o + a + |parts[k]|] == j[a..a + |parts[k]|];
      }
    }
  }

  lemma {:induction false} JoinSepAt(sep: string, parts: seq<string>, k: nat)
    requires k + 1 < |parts|
    ensures PartStart(sep, parts, k + 1) == PartStart(sep, parts, k) + |parts[k]| + |sep|
    ensures OccursAt(sep, Join(sep, parts), PartStart(sep, parts, k) + |parts[k]|)
    decreases k
  {
    var s := Join(sep, parts);
    var rest := parts[1..];
    var j := Join(sep, rest);
    assert s == parts[0] + sep + j;
    if k == 0 {
      assert s[|parts[0]|..|parts[0]| + |sep|] == sep;
    } else {
      var o := |parts[0]| + |sep|;
      JoinSepAt(sep, rest, k - 1);
      var a := PartStart(sep, rest, k - 1) + |rest[k - 1]|;
      assert s[o + a..o + a + |sep|] == j[a..a + |sep|];
    }
  }

  lemma {:induction false} JoinLastPart(sep: string, parts: seq<string>)
    requires parts != []
    ensures PartStart(sep, parts, |parts| - 1) + |parts[|parts| - 1]| == |Join(sep, parts)|
    decreases |parts|
  {
    if |parts| > 1 {
      JoinLastPart(sep, parts[1..]);
    }
  }

  /** An occurrence keeps its place, shifted, inside a longer text. */
  lemma OccursAtShift(pat: string, pre: string, s: string, post: string, i: nat)
    requires OccursAt(pat, s, i)
    ensures OccursAt(pat, pre + s + post, |pre| + i)
  {
    assert (pre + s + post)[|pre| + i..|pre| + i + |pat|] == s[i..i + |pat|];
  }

  /** `x` is `open`, the parts in order with one `sep` between neighbours, and `close`. */
  predicate WrappedJoin(x: string, open: string, sep: string, close: string, parts: seq<string>)
  {
    && |open| + |close| <= |x|
    && OccursAt(open, x, 0)
    && OccursAt(close, x, |x| - |close|)
    && (parts == [] ==> x == open + close)
    && (forall k :: 0 <= k < |parts| ==> OccursAt(parts[k], x, |open| + PartStart(sep, parts, k)))
    && (forall k :: 0 <= k < |parts| - 1 ==>
          OccursAt(sep, x, |open| + PartStart(sep, parts, k) + |parts[k]|))
    && (parts != [] ==> |open| + PartStart(sep, parts, |parts| - 1) + |parts[|parts| - 1]| + |close| == |x|)
  }

  lemma WrappedJoinLayout(open: string, sep: string, close: string, parts: seq<string>)
    ensures WrappedJoin(open + Join(sep, parts) + close, open, sep, close, parts)
  {
    var j := Join(sep, parts);
    var x := open + j + close;
    WrappedEnds(open, j, close);
    if parts != [] {
      JoinLayout(sep, parts);
      WrappedParts(open, sep, close, parts);
    }
  }

  lemma WrappedEnds(open: string, j: string, close: string)
    ensures OccursAt(open, open + j + close, 0)
    ensures OccursAt(close, open + j + close, |open + j + close| - |close|)
  {
    var x := open + j + close;
    assert x[..|open|] == open;
    assert x[|x| - |close|..] == close;
  }

  lemma WrappedParts(open: string, sep: string, close: string, parts: seq<string>)
    requires parts != []
    ensures forall k :: 0 <= k < |parts| ==>
              OccursAt(parts[k], open + Join(sep, parts) + close, |open| + PartStart(sep, parts, k))
    ensures forall k :: 0 <= k < |parts| - 1 ==>
              OccursAt(sep, open + Join(sep, parts) + close, |open| + PartStart(sep, parts, k) + |parts[k]|)
  {
    forall k | 0 <= k < |parts|
      ensures OccursAt(parts[k], open + Join(sep, parts) + close, |open| + PartStart(sep, parts, k))
    {
      WrappedPartAt(open, sep, close, parts, k);
    }
    forall k | 0 <= k < |parts| - 1
      ensures OccursAt(sep, open + Join(sep, parts) + close, |open| + PartStart(sep, parts, k) + |parts[k]|)
    {
      WrappedSepAt(open, sep, close, parts, k);
    }
  }

  lemma WrappedPartAt(open: string, sep: string, close: string, parts: seq<string>, k: nat)
    requires k < |parts|
    ensures OccursAt(parts[k], open + Join(sep, parts) + close, |open| + PartStart(sep, parts, k))
  {
    JoinPartAt(sep, parts, k);
    OccursAtShift(parts[k], open, Join(sep, parts), close, PartStart(sep, parts, k));
  }

  lemma WrappedSepAt(open: string, sep: string, close: string, parts: seq<string>, k: nat)
    requires k + 1 < |parts|
    ensures OccursAt(sep, open + Join(sep, parts) + close, |open| + PartStart(sep, parts, k) + |parts[k]|)
  {
    JoinSepAt(sep, parts, k);
    OccursAtShift(sep, open, Join(sep, parts), close, PartStart(sep, parts, k) + |parts[k]|);
  }

  /** Splitting a join of separator-free parts gives the parts back. */
  lemma {:induction false} SplitJoin(parts: seq<string>, c: char)
    requires |parts| >= 1
    requires forall k :: 0 <= k < |parts| ==> c !in parts[k]
    ensures Split(Join([c], parts), c) == parts
    decreases |parts|
  {
    if |parts| == 1 {
      assert Join([c], parts) == parts[0];
    } else {
      var s := Join([c], parts);
      var tail := Join([c], parts[1..]);
      assert s == parts[0] + [c] + tail;
      assert s[|parts[0]|] == c;
      assert s[..|parts[0]|] == parts[0];
      assert IndexOf(s, c) == Some(|parts[0]|);
      assert s[|parts[0]| + 1..] == tail;
      SplitJoin(parts[1..], c);
      assert [parts[0]] + parts[1..] == parts;
    }
  }

  // ---------------------------------------------------------------------------
  // HTML escaping

  /** `html.escape(s)` with its default `quote=True`, one character at a time. */
  function EscapeChar(c: char): string
  {
    if c == '&' then "&amp;"
    else if c == '<' then "&lt;"
    else if c == '>' then "&gt;"
    else if c == '"' then "&quot;"
    else if c == '\'' then "&#x27;"
    else [c]
  }

  /** `html.escape(s)`, with `quote=True`. */
  function HtmlEscape(s: string): string
    decreases |s|
  {
    if s == [] then [] else EscapeChar(s[0]) + HtmlEscape(s[1..])
  }

  lemma EscapeCharSafe(c: char)
    ensures var e := EscapeChar(c);
            '<' !in e && '>' !in e && '"' !in e && '\'' !in e && |e| >= 1
  {
  }

  /** The escaped text never holds a markup-significant character and is no shorter. */
  lemma {:induction false} HtmlEscapeSafe(s: string)
    ensures var r := HtmlEscape(s);
            '<' !in r && '>' !in r && '"' !in r && '\'' !in r && |r| >= |s|
    decreases |s|
  {
    if s != [] {
      HtmlEscapeSafe(s[1..]);
      EscapeCharSafe(s[0]);
    }
  }

  /** The inverse of `HtmlEscape`: decodes the five entities it produces. */
  function HtmlUnescape(s: string): string
    decreases |s|
  {
    if s == [] then []
    else if "&amp;" <= s then "&" + HtmlUnescape(s[5..])
    else if "&lt;" <= s then "<" + HtmlUnescape(s[4..])
    else if "&gt;" <= s then ">" + HtmlUnescape(s[4..])
    else if "&quot;" <= s then "\"" + HtmlUnescape(s[6..])
    else if "&#x27;" <= s then "'" + HtmlUnescape(s[6..])
    else [s[0]] + HtmlUnescape(s[1..])
  }

  /** Unescaping undoes one escaped character in front of any text. */
  lemma UnescapeChar(c: char, rest: string)
    ensures HtmlUnescape(EscapeChar(c) + rest) == [c] + HtmlUnescape(rest)
  {
    var e := EscapeChar(c);
    assert (e + rest)[|e|..] == rest;
    if c == '&' {
      assert "&amp;" <= e + rest;
    } else if c == '<' {
      assert (e + rest)[1] == 'l';
      assert !("&amp;" <= e + rest) && "&lt;" <= e + rest;
    } else if c == '>' {
      assert (e + rest)[1] == 'g';
      assert !("&amp;" <= e + rest) && !("&lt;" <= e + rest) && "&gt;" <= e + rest;
    } else if c == '"' {
      assert (e + rest)[1] == 'q';
      assert !("&amp;" <= e + rest) && !("&lt;" <= e + rest) && !("&gt;" <= e + rest);
      assert "&quot;" <= e + rest;
    } else if c == '\'' {
      assert (e + rest)[1] == '#';
      assert !("&amp;" <= e + rest) && !("&lt;" <= e + rest) && !("&gt;" <= e + rest);
      assert !("&quot;" <= e + rest) && "&#x27;" <= e + rest;
    } else {
      assert (e + rest)[0] == c;
    }
  }

  lemma {:induction false} HtmlEscapeRoundTrip(s: string)
    ensures HtmlUnescape(HtmlEscape(s)) == s
    decreases |s|
  {
    if s != [] {
      HtmlEscapeRoundTrip(s[1..]);
      UnescapeChar(s[0], HtmlEscape(s[1..]));
      assert [s[0]] + s[1..] == s;
    }
  }

  // ---------------------------------------------------------------------------
  // Decimal numbers

  function DigitChar(d: nat): char
    requires d < 10
  {
    "0123456789"[d]
  }

  predicate IsDigit(c: char)
  {
    '0' <= c <= '9'
  }

  /** `str(n)` for a natural number: decimal digits, no leading zero. */
  function NatToString(n: nat): (r: string)
    ensures |r| >= 1
    ensures forall i :: 0 <= i < |r| ==> IsDigit(r[i])
    ensures r[0] == '0' ==> n == 0
    decreases n
  {
    if n < 10 then [DigitChar(n)] else NatToString(n / 10) + [DigitChar(n % 10)]
  }

  /** The value of a string of decimal digits. */
  function ParseDecimal(s: string): nat
    requires forall i :: 0 <= i < |s| ==> IsDigit(s[i])
    decreases |s|
  {
    if s == [] then 0
    else
      var last := s[|s| - 1];
      assert IsDigit(last);
      ParseDecimal(s[..|s| - 1]) * 10 + (last as int - '0' as int)
  }

  lemma {:induction false} NatToStringRoundTrip(n: nat)
    ensures ParseDecimal(NatToString(n)) == n
    decreases n
  {
    var r := NatToString(n);
    if n >= 10 {
      var q := NatToString(n / 10);
      NatToStringRoundTrip(n / 10);
      assert r == q + [DigitChar(n % 10)];
      assert r[..|r| - 1] == q;
      assert r[|r| - 1] as int - '0' as int == n % 10;
    } else {
      assert r[0] as int - '0' as int == n;
      assert r[..0] == [];
    }
  }

  /** A number written between a prefix and a text that starts with a non-digit can be read
      back: the digits run up to that first character, and their value is the number. */
  lemma NatToStringReadBack(pre: string, n: nat, tail: string)
    requires tail != [] && !IsDigit(tail[0])
    ensures var s := pre + NatToString(n) + tail;
            exists e :: |pre| < e < |s| && s[e] == tail[0]
                        && (forall i :: |pre| <= i < e ==> IsDigit(s[i]))
                        && ParseDecimal(s[|pre|..e]) == n
  {
    var d := NatToString(n);
    var s := pre + d + tail;
    var e := |pre| + |d|;
    assert s[|pre|..e] == d;
    assert s[e] == tail[0];
    NatToStringRoundTrip(n);
  }
}
