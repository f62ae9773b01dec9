/**
  The parts of `generate_html` that carry logic: the link from a reported path to the site
  it mirrors, the grid of searched extensions (sorted, in columns of six) and the count of
  reported files. The fixed page around them is not modelled.
 */
module Report {
  import opened Wrappers
  import opened Text
  import opened Classify

  // ---------------------------------------------------------------------------
  // Links

  /** `s.rstrip(c)`: `s` without its trailing run of `c`. */
  function StripTrailing(s: string, c: char): (r: string)
    ensures |r| <= |s| && r == s[..|r|]
    ensures forall i :: |r| <= i < |s| ==> s[i] == c
    ensures r == [] || r[|r| - 1] != c
    decreases |s|
  {
    if s != [] && s[|s| - 1] == c then StripTrailing(s[..|s| - 1], c) else s
  }

  /** `s.lstrip(c)`: `s` without its leading run of `c`. */
  function StripLeading(s: string, c: char): (r: string)
    ensures |r| <= |s| && r == s[|s| - |r|..]
    ensures forall i :: 0 <= i < |s| - |r| ==> s[i] == c
    ensures r == [] || r[0] != c
    decreases |s|
  {
    if s != [] && s[0] == c then StripLeading(s[1..], c) else s
  }

  /** The link of a reported path: none when the base URL is empty (`if base_url:`),
      otherwise `base_url.rstrip('/') + '/' + file_path.lstrip('/')`. */
  function LinkUrl(base: string, path: string): Option<string>
  {
    if base == [] then None
    else Some(StripTrailing(base, '/') + "/" + StripLeading(path, '/'))
  }

  /** With a base URL the link is the base without its trailing slashes, one slash, and the
      path without its leading slashes; so exactly one slash stands at the junction. */
  lemma LinkUrlJunction(base: string, path: string)
    requires base != []
    ensures LinkUrl(base, path).Some?
    ensures var u := LinkUrl(base, path).value;
            exists i, j :: 0 <= i <= |base| && 0 <= j <= |path|
                           && (forall k :: i <= k < |base| ==> base[k] == '/')
                           && (forall k :: 0 <= k < j ==> path[k] == '/')
                           && u == base[..i] + "/" + path[j..]
                           && (i == 0 || base[i - 1] != '/')
                           && (j == |path| || path[j] != '/')
  {
    var b := StripTrailing(base, '/');
    var p := StripLeading(path, '/');
    var i := |b|;
    var j := |path| - |p|;
    assert b == base[..i] && p == path[j..];
    assert i > 0 ==> base[i - 1] == b[i - 1];
    assert j < |path| ==> path[j] == p[0];
  }

  /** Without a base URL no path is linked. */
  lemma NoBaseNoLink(path: string)
    ensures LinkUrl("", path) == None
  {
  }

  /** Extra slashes at the end of the base or the start of the path do not change a link. */
  lemma {:induction false} LinkIgnoresExtraSlashes(base: string, path: string)
    requires base != []
    ensures LinkUrl(base + "/", path) == LinkUrl(base, path)
    ensures LinkUrl(base, "/" + path) == LinkUrl(base, path)
  {
    var b := base + "/";
    assert b[..|b| - 1] == base;
    var p := "/" + path;
    assert p[1..] == path;
  }

  const AnchorOpen: string := "<a href=\""

  /** The file-path cell of a result row. */
  function PathCell(base: string, path: string): string
  {
    match LinkUrl(base, path)
    case Some(u) =>
      AnchorOpen + HtmlEscape(u) + "\" target=\"_blank\" class=\"file-path\">" + HtmlEscape(path) + "</a>"
    case None =>
      "<span class=\"file-path\">" + HtmlEscape(path) + "</span>"
  }

  /** With a base URL the cell is a link whose `href` attribute ends at the first double
      quote and reads back as the URL; without one the cell is no link. */
  lemma PathCellHref(base: string, path: string)
    ensures LinkUrl(base, path).None? <==> !(AnchorOpen <= PathCell(base, path))
    ensures LinkUrl(base, path).Some? ==>
              var c := PathCell(base, path);
              exists e :: |AnchorOpen| <= e < |c| && c[e] == '"' && '"' !in c[|AnchorOpen|..e]
                          && HtmlUnescape(c[|AnchorOpen|..e]) == LinkUrl(base, path).value
  {
    var c := PathCell(base, path);
    match LinkUrl(base, path)
    case Some(u) =>
      var h := HtmlEscape(u);
      var rest := "\" target=\"_blank\" class=\"file-path\">" + HtmlEscape(path) + "</a>";
      assert c == AnchorOpen + h + rest;
      var e := |AnchorOpen| + |h|;
      assert c[|AnchorOpen|..e] == h;
      assert c[e] == rest[0];
      HtmlEscapeSafe(u);
      HtmlEscapeRoundTrip(u);
    case None =>
      assert c[1] == 's';
  }

  // ---------------------------------------------------------------------------
  // The extension grid

  /** Python's ordering of strings: lexicographic by code point. */
  predicate StrLess(a: string, b: string)
    decreases |a|
  {
    if a == [] then b != []
    else if b == [] then false
    else a[0] < b[0] || (a[0] == b[0] && StrLess(a[1..], b[1..]))
  }

  lemma {:induction false} StrLessIrreflexive(a: string)
    ensures !StrLess(a, a)
    decreases |a|
  {
    if a != [] {
      StrLessIrreflexive(a[1..]);
    }
  }

  lemma {:induction false} StrLessTransitive(a: string, b: string, c: string)
    requires StrLess(a, b) && StrLess(b, c)
    ensures StrLess(a, c)
    decreases |a|
  {
    if a != [] && a[0] == b[0] && b[0] == c[0] {
      StrLessTransitive(a[1..], b[1..], c[1..]);
    }
  }

  lemma {:induction false} StrLessTotal(a: string, b: string)
    ensures a == b || StrLess(a, b) || StrLess(b, a)
    decreases |a|
  {
    if a != [] && b != [] && a[0] == b[0] {
      StrLessTotal(a[1..], b[1..]);
      assert a == [a[0]] + a[1..] && b == [b[0]] + b[1..];
    }
  }

  /** Strictly increasing, so also free of repeats. */
  predicate Sorted(s: seq<string>)
  {
    forall i, j :: 0 <= i < j < |s| ==> StrLess(s[i], s[j])
  }

  /** Each element is below the next one. */
  predicate StepSorted(s: seq<string>)
  {
    forall i :: 0 <= i < |s| - 1 ==> StrLess(s[i], s[i + 1])
  }

  lemma {:induction false} StepSortedIsSorted(s: seq<string>)
    requires StepSorted(s)
    ensures Sorted(s)
    decreases |s|
  {
    if |s| > 1 {
      var t := s[1..];
      assert StepSorted(t) by {
        forall i | 0 <= i < |t| - 1
          ensures StrLess(t[i], t[i + 1])
        {
          assert t[i] == s[i + 1] && t[i + 1] == s[i + 2];
        }
      }
      StepSortedIsSorted(t);
      forall i, j | 0 <= i < j < |s|
        ensures StrLess(s[i], s[j])
      {
        if i > 0 {
          assert s[i] == t[i - 1] && s[j] == t[j - 1];
        } else if j > 1 {
          assert s[1] == t[0] && s[j] == t[j - 1];
          StrLessTransitive(s[0], s[1], s[j]);
        }
      }
    }
  }

  /** A sorted listing of a set is unique: it is what `sorted(list(s))` returns. */
  lemma {:induction false} SortedUnique(a: seq<string>, b: seq<string>)
    requires Sorted(a) && Sorted(b)
    requires forall x :: x in a <==> x in b
    ensures a == b
    decreases |a|
  {
    if a != [] {
      assert a[0] in b;
    }
    if b != [] {
      assert b[0] in a;
    }
    if a != [] && b != [] {
      if a[0] != b[0] {
        var i :| 0 <= i < |b| && b[i] == a[0];
        var j :| 0 <= j < |a| && a[j] == b[0];
        assert i > 0 && j > 0;
        StrLessTransitive(a[0], a[j], a[0]);
        StrLessIrreflexive(a[0]);
      }
      var a', b' := a[1..], b[1..];
      forall x | x in a'
        ensures x in b'
      {
        var i :| 1 <= i < |a| && a[i] == x;
        assert StrLess(a[0], x);
        StrLessIrreflexive(x);
        assert x in b;
        var j :| 0 <= j < |b| && b[j] == x;
        assert j != 0;
        assert b'[j - 1] == x;
      }
      forall x | x in b'
        ensures x in a'
      {
        var j :| 1 <= j < |b| && b[j] == x;
        assert StrLess(b[0], x);
        StrLessIrreflexive(x);
        assert x in a;
        var i :| 0 <= i < |a| && a[i] == x;
        assert i != 0;
        assert a'[i - 1] == x;
      }
      SortedUnique(a', b');
      assert a == [a[0]] + a' && b == [b[0]] + b';
    }
  }

  /** `sorted(list(TEXT_EXTENSIONS))`. */
  const SortedExtensions: seq<string> :=
    ["bat", "c", "conf", "cpp", "css", "csv", "h", "htm", "html", "ini", "java", "js", "json",
     "log", "md", "php", "pl", "py", "sh", "shtml", "sql", "tt", "txt", "xml", "yaml", "yml"]

  /** The listing is sorted and holds exactly the text extensions, so it is the one
      `sorted` returns. */
  lemma SortedExtensionsListing()
    ensures Sorted(SortedExtensions)
    ensures (set x | x in SortedExtensions) == TextExtensions
  {
    SortedExtensionsStep();
    StepSortedIsSorted(SortedExtensions);
    SortedExtensionsCover();
  }

  lemma SortedExtensionsStep()
    ensures StepSorted(SortedExtensions)
  {
    var s := SortedExtensions;
    forall i | 0 <= i < |s| - 1
      ensures StrLess(s[i], s[i + 1])
    {
      if i < 13 {
        SortedExtensionsFirstHalf(i);
      } else {
        SortedExtensionsSecondHalf(i);
      }
    }
  }

  lemma SortedExtensionsFirstHalf(i: nat)
    requires i < 13
    ensures StrLess(SortedExtensions[i], SortedExtensions[i + 1])
  {
  }

  lemma SortedExtensionsSecondHalf(i: nat)
    requires 13 <= i < |SortedExtensions| - 1
    ensures StrLess(SortedExtensions[i], SortedExtensions[i + 1])
  {
  }

  lemma SortedExtensionsCover()
    ensures (set x | x in SortedExtensions) == TextExtensions
  {
  }

  /** `[xs[i:i + n] for i in range(0, len(xs), n)]`. */
  function Chunks<T>(xs: seq<T>, n: nat): seq<seq<T>>
    requires n > 0
    decreases |xs|
  {
    if xs == [] then []
    else if |xs| <= n then [xs]
    else [xs[..n]] + Chunks(xs[n..], n)
  }

  function Flatten<T>(xss: seq<seq<T>>): seq<T>
  {
    if xss == [] then [] else xss[0] + Flatten(xss[1..])
  }

  /** The chunks put back together give the list; every chunk holds between one and `n`
      elements, and all but the last hold exactly `n`. */
  lemma {:induction false} ChunksShape<T>(xs: seq<T>, n: nat)
    requires n > 0
    ensures Flatten(Chunks(xs, n)) == xs
    ensures forall k :: 0 <= k < |Chunks(xs, n)| ==> 1 <= |Chunks(xs, n)[k]| <= n
    ensures forall k :: 0 <= k < |Chunks(xs, n)| - 1 ==> |Chunks(xs, n)[k]| == n
    decreases |xs|
  {
    var c := Chunks(xs, n);
    if xs == [] {
    } else if |xs| <= n {
      assert Flatten(c) == xs + Flatten([]);
    } else {
      var rest := Chunks(xs[n..], n);
      ChunksShape(xs[n..], n);
      assert c == [xs[..n]] + rest;
      assert c[1..] == rest;
      assert xs[..n] + xs[n..] == xs;
      forall k | 1 <= k < |c|
        ensures c[k] == rest[k - 1]
      {
      }
    }
  }

  /** The chunk at position `k` is the slice the Python comprehension takes for `i = k * n`. */
  lemma {:induction false} ChunkAt<T>(xs: seq<T>, n: nat, k: nat)
    requires n > 0 && k < |Chunks(xs, n)|
    ensures k * n < |xs|
    ensures Chunks(xs, n)[k] == xs[k * n .. if (k + 1) * n <= |xs| then (k + 1) * n else |xs|]
    decreases k
  {
    if k > 0 {
      var c := Chunks(xs, n);
      var rest := Chunks(xs[n..], n);
      assert c == [xs[..n]] + rest;
      ChunkAt(xs[n..], n, k - 1);
      assert (k - 1) * n + n == k * n;
      assert k * n + n == (k + 1) * n;
      assert xs[n..][(k - 1) * n .. if k * n <= |xs| - n then k * n else |xs| - n]
          == xs[k * n .. if (k + 1) * n <= |xs| then (k + 1) * n else |xs|];
    }
  }

  /** The columns of the extension grid: four of six extensions and a last one of two. */
  lemma ExtensionColumns()
    ensures var c := Chunks(SortedExtensions, 6);
            && |c| == 5
            && (forall k :: 0 <= k < 4 ==> |c[k]| == 6)
            && c[4] == ["yaml", "yml"]
  {
    var c := Chunks(SortedExtensions, 6);
    ChunksShape(SortedExtensions, 6);
    ChunkAt(SortedExtensions, 6, 4);
  }

  // ---------------------------------------------------------------------------
  // The count line

  const CountPrefix: string := "<p>Found matches in <strong>"
  const CountSuffix: string := "</strong> files.</p>"

  /** The line reporting how many files matched. */
  function CountLine(results: nat): string
  {
    CountPrefix + NatToString(results) + CountSuffix
  }

  /** The count line spells, right after its prefix and up to the closing tag, the number of
      reported files in decimal. */
  lemma CountReadBack(results: nat)
    ensures var s := CountLine(results);
            exists e :: |CountPrefix| < e < |s| && s[e] == '<'
                        && (forall i :: |CountPrefix| <= i < e ==> IsDigit(s[i]))
                        && ParseDecimal(s[|CountPrefix|..e]) == results
  {
    assert CountSuffix[0] == '<';
    assert CountLine(results) == CountPrefix + NatToString(results) + CountSuffix;
    NatToStringReadBack(CountPrefix, results, CountSuffix);
  }
}
