/**
  `search_directory`: one pass over the walk, grouping matches by relative path, then a
  second pass that drops files without any match and shapes a record for each of the others.

  The file system is an input: the walk is the sequence of files `os.walk` reports, in its
  order, and each file carries the lines `readlines` would return, or nothing when opening
  or reading it fails.
 */
module Search {
  import opened Wrappers
  import opened Text
  import opened Matching
  import opened Classify

  /** One file reported by the walk: the directory the walk was in, the bare file name, the
      path relative to the searched directory, and the file's lines (absent on a read
      failure; never consulted for a file that is not content-searchable). */
  datatype Entry = Entry(root: string, name: string, relPath: string, lines: Option<seq<string>>)

  /** `os.path.join(root, file)`, the path handed to `is_searchable_file`. */
  function FullPath(e: Entry): string
  {
    JoinPath(e.root, e.name)
  }

  /** One matching line: its 1-based number, its stripped and HTML-escaped text, and the
      escaped terms that matched it. */
  datatype LineMatch = LineMatch(lineNum: nat, content: string, words: seq<string>)

  /** What the first pass gathers for one relative path. */
  datatype Group = Group(nameMatches: set<string>, lines: seq<LineMatch>)

  /** One result: the relative path, the union of all matched terms, and the parts the
      match-details excerpt is built from. */
  datatype Record = Record(path: string, matchedTerms: set<string>, nameMatches: set<string>,
                           lines: seq<LineMatch>)

  const NoMatches: Group := Group({}, [])

  /** `file.startswith('._')`: resource-fork files are skipped entirely. */
  predicate IsSkipped(name: string)
  {
    "._" <= name
  }

  // ---------------------------------------------------------------------------
  // One file

  /** The terms found in a bare file name (`is_string_in_filename`). */
  function NameMatches(name: string, words: seq<string>): set<string>
  {
    set w | w in words && InFilename(name, w)
  }

  /** A term is a filename match iff it is configured and occurs in the bare name, ignoring
      case, whatever the extension. */
  lemma NameMatchesSpec(name: string, words: seq<string>)
    ensures forall w :: w in NameMatches(name, words) <==> w in words && exists i: nat :: CiOccursAt(w, name, i)
  {
    forall w | w in words { InFilenameIff(name, w); }
  }

  /** Indices, from `j` on, of the terms whose pattern finds a match in `line`, in the order
      the source tests them. */
  function HitsFrom(line: string, words: seq<string>, j: nat): (r: seq<nat>)
    requires j <= |words|
    ensures forall k :: 0 <= k < |r| ==> j <= r[k] < |words|
    decreases |words| - j
  {
    if j == |words| then []
    else
      var rest := HitsFrom(line, words, j + 1);
      if SearchWord(words[j], line) then [j] + rest else rest
  }

  /** The indices are increasing, and an index is listed iff its term occurs in the line as
      a whole word, ignoring case. */
  lemma {:induction false} HitsFromSpec(line: string, words: seq<string>, j: nat)
    requires j <= |words|
    ensures forall k, l :: 0 <= k < l < |HitsFrom(line, words, j)|
                           ==> HitsFrom(line, words, j)[k] < HitsFrom(line, words, j)[l]
    ensures forall x :: x in HitsFrom(line, words, j) <==> j <= x < |words| && HasWholeWord(words[x], line)
    decreases |words| - j
  {
    if j < |words| {
      HitsFromSpec(line, words, j + 1);
    }
  }

  function Hits(line: string, words: seq<string>): seq<nat>
  {
    HitsFrom(line, words, 0)
  }

  /** The escaped terms at the indices `h`. */
  function EscapedAt(words: seq<string>, h: seq<nat>): (r: seq<string>)
    requires forall k :: 0 <= k < |h| ==> h[k] < |words|
    ensures |r| == |h|
    ensures forall k :: 0 <= k < |h| ==> r[k] == RegexEscape(words[h[k]])
  {
    if h == [] then [] else [RegexEscape(words[h[0]])] + EscapedAt(words, h[1..])
  }

  /** `matches_this_line`: the escaped terms (`pattern.pattern[2:-2]`) whose pattern matched. */
  function LineWords(line: string, words: seq<string>): seq<string>
  {
    EscapedAt(words, Hits(line, words))
  }

  /** Some term occurs in the line as a whole word, ignoring case. */
  ghost predicate LineHasTerm(line: string, words: seq<string>)
  {
    exists j :: 0 <= j < |words| && HasWholeWord(words[j], line)
  }

  /** The recorded terms of a line are the escaped forms of exactly the terms that match it,
      listed in configured order; a line records something iff some term matches it. */
  lemma LineWordsSpec(line: string, words: seq<string>)
    ensures |LineWords(line, words)| == |Hits(line, words)|
    ensures forall k :: 0 <= k < |Hits(line, words)|
                        ==> LineWords(line, words)[k] == RegexEscape(words[Hits(line, words)[k]])
                            && HasWholeWord(words[Hits(line, words)[k]], line)
    ensures forall k, l :: 0 <= k < l < |Hits(line, words)| ==> Hits(line, words)[k] < Hits(line, words)[l]
    ensures forall j :: 0 <= j < |words| && HasWholeWord(words[j], line)
                        ==> RegexEscape(words[j]) in LineWords(line, words)
    ensures LineWords(line, words) != [] <==> LineHasTerm(line, words)
  {
    var h := Hits(line, words);
    var r := LineWords(line, words);
    HitsFromSpec(line, words, 0);
    forall j | 0 <= j < |words| && HasWholeWord(words[j], line)
      ensures RegexEscape(words[j]) in r
    {
      assert j in h;
      var k :| 0 <= k < |h| && h[k] == j;
      assert r[k] == RegexEscape(words[j]);
    }
    if LineHasTerm(line, words) {
      var j :| 0 <= j < |words| && HasWholeWord(words[j], line);
      assert j in h;
    }
    if r != [] {
      assert h[0] in h;
    }
  }

  /** `m` is the record of a matching line of `lines`: its number is 1-based, its text is the
      stripped and escaped line, and it lists the line's recorded terms, of which there is
      at least one. */
  predicate IsLineRecord(lines: seq<string>, words: seq<string>, m: LineMatch)
  {
    && 1 <= m.lineNum <= |lines|
    && m == RecordOf(lines[m.lineNum - 1], words, m.lineNum)
    && m.words != []
  }

  /** The record for line number `ln`, whose text is `line`. */
  function RecordOf(line: string, words: seq<string>, ln: nat): LineMatch
  {
    LineMatch(ln, HtmlEscape(Strip(line)), LineWords(line, words))
  }

  /** The content matches of `lines[n..]`, numbering lines from `n + 1`. */
  function ContentFrom(lines: seq<string>, words: seq<string>, n: nat): seq<LineMatch>
    requires n <= |lines|
    decreases |lines| - n
  {
    if n == |lines| then []
    else
      var rest := ContentFrom(lines, words, n + 1);
      if LineWords(lines[n], words) != [] then [RecordOf(lines[n], words, n + 1)] + rest else rest
  }

  /** Content matches found from `n` on are numbered after `n`. */
  lemma {:induction false} ContentFromBound(lines: seq<string>, words: seq<string>, n: nat)
    requires n <= |lines|
    ensures forall k :: 0 <= k < |ContentFrom(lines, words, n)| ==> n < ContentFrom(lines, words, n)[k].lineNum
    decreases |lines| - n
  {
    if n < |lines| {
      ContentFromBound(lines, words, n + 1);
      var rest := ContentFrom(lines, words, n + 1);
      if LineWords(lines[n], words) != [] {
        var r := [RecordOf(lines[n], words, n + 1)] + rest;
        assert ContentFrom(lines, words, n) == r;
        assert forall k :: 0 < k < |r| ==> r[k] == rest[k - 1];
      }
    }
  }

  /** Each content match is the record of a matching line of the file. */
  lemma {:induction false} ContentFromRecords(lines: seq<string>, words: seq<string>, n: nat)
    requires n <= |lines|
    ensures forall k :: 0 <= k < |ContentFrom(lines, words, n)|
              ==> IsLineRecord(lines, words, ContentFrom(lines, words, n)[k])
    decreases |lines| - n
  {
    if n < |lines| {
      ContentFromRecords(lines, words, n + 1);
      var rest := ContentFrom(lines, words, n + 1);
      if LineWords(lines[n], words) != [] {
        var m := RecordOf(lines[n], words, n + 1);
        assert IsLineRecord(lines, words, m) by {
          assert m.lineNum - 1 == n;
        }
        ConsRecords(lines, words, m, rest);
        assert ContentFrom(lines, words, n) == [m] + rest;
      }
    }
  }

  /** Line numbers of content matches strictly increase. */
  lemma {:induction false} ContentFromOrder(lines: seq<string>, words: seq<string>, n: nat)
    requires n <= |lines|
    ensures forall k, l :: 0 <= k < l < |ContentFrom(lines, words, n)|
              ==> ContentFrom(lines, words, n)[k].lineNum < ContentFrom(lines, words, n)[l].lineNum
    decreases |lines| - n
  {
    if n < |lines| {
      ContentFromOrder(lines, words, n + 1);
      ContentFromBound(lines, words, n + 1);
      var rest := ContentFrom(lines, words, n + 1);
      if LineWords(lines[n], words) != [] {
        var m := RecordOf(lines[n], words, n + 1);
        assert ContentFrom(lines, words, n) == [m] + rest;
        ConsOrder(n, m, rest);
      }
    }
  }

  /** A line is recorded iff some term matches it as a whole word. */
  lemma {:induction false} ContentFromCover(lines: seq<string>, words: seq<string>, n: nat)
    requires n <= |lines|
    ensures forall i :: n <= i < |lines| ==>
              ((exists k :: 0 <= k < |ContentFrom(lines, words, n)|
                            && ContentFrom(lines, words, n)[k].lineNum == i + 1)
               <==> LineWords(lines[i], words) != [])
    decreases |lines| - n
  {
    if n < |lines| {
      ContentFromCover(lines, words, n + 1);
      ContentFromBound(lines, words, n + 1);
      var rest := ContentFrom(lines, words, n + 1);
      if LineWords(lines[n], words) != [] {
        var m := RecordOf(lines[n], words, n + 1);
        ConsCover(lines, words, n, m, rest);
        assert ContentFrom(lines, words, n) == [m] + rest;
      } else {
        SkipCover(lines, words, n, rest);
        assert ContentFrom(lines, words, n) == rest;
      }
    }
  }

  lemma ConsRecords(lines: seq<string>, words: seq<string>, m: LineMatch, rest: seq<LineMatch>)
    requires IsLineRecord(lines, words, m)
    requires forall k :: 0 <= k < |rest| ==> IsLineRecord(lines, words, rest[k])
    ensures forall k :: 0 <= k < |[m] + rest| ==> IsLineRecord(lines, words, ([m] + rest)[k])
  {
    var r := [m] + rest;
    assert forall k :: 0 < k < |r| ==> r[k] == rest[k - 1];
  }

  lemma SkipCover(lines: seq<string>, words: seq<string>, n: nat, rest: seq<LineMatch>)
    requires n < |lines| && LineWords(lines[n], words) == []
    requires forall i :: n + 1 <= i < |lines| ==>
          ((exists k :: 0 <= k < |rest| && rest[k].lineNum == i + 1) <==> LineWords(lines[i], words) != [])
    requires forall k :: 0 <= k < |rest| ==> n + 1 < rest[k].lineNum
    ensures forall i :: n <= i < |lines| ==>
          ((exists k :: 0 <= k < |rest| && rest[k].lineNum == i + 1) <==> LineWords(lines[i], words) != [])
  {
  }

  lemma ConsOrder(n: nat, m: LineMatch, rest: seq<LineMatch>)
    requires m.lineNum == n + 1
    requires forall k :: 0 <= k < |rest| ==> n + 1 < rest[k].lineNum
    requires forall k, l :: 0 <= k < l < |rest| ==> rest[k].lineNum < rest[l].lineNum
    ensures forall k, l :: 0 <= k < l < |[m] + rest| ==> ([m] + rest)[k].lineNum < ([m] + rest)[l].lineNum
  {
    var r := [m] + rest;
    forall k, l | 0 <= k < l < |r|
      ensures r[k].lineNum < r[l].lineNum
    {
      assert r[l] == rest[l - 1];
      if k > 0 { assert r[k] == rest[k - 1]; }
    }
  }

  lemma ConsCover(lines: seq<string>, words: seq<string>, n: nat, m: LineMatch, rest: seq<LineMatch>)
    requires n < |lines| && m.lineNum == n + 1 && LineWords(lines[n], words) != []
    requires forall i :: n + 1 <= i < |lines| ==>
          ((exists k :: 0 <= k < |rest| && rest[k].lineNum == i + 1) <==> LineWords(lines[i], words) != [])
    requires forall k :: 0 <= k < |rest| ==> n + 1 < rest[k].lineNum
    ensures forall i :: n <= i < |lines| ==>
          ((exists k :: 0 <= k < |[m] + rest| && ([m] + rest)[k].lineNum == i + 1) <==> LineWords(lines[i], words) != [])
  {
    var r := [m] + rest;
    forall i | n <= i < |lines|
      ensures (exists k :: 0 <= k < |r| && r[k].lineNum == i + 1) <==> LineWords(lines[i], words) != []
    {
      if i == n {
        assert r[0].lineNum == i + 1;
      } else if exists k :: 0 <= k < |r| && r[k].lineNum == i + 1 {
        var k :| 0 <= k < |r| && r[k].lineNum == i + 1;
        assert k > 0;
        assert r[k] == rest[k - 1];
      } else {
        assert forall k :: 0 <= k < |rest| ==> r[k + 1] == rest[k];
      }
    }
  }

  /** The content matches of a whole file. */
  function ContentMatches(lines: seq<string>, words: seq<string>): seq<LineMatch>
  {
    ContentFrom(lines, words, 0)
  }

  /** What one visited file contributes: filename matches for every file, content matches
      only for a content-searchable one whose read succeeded. */
  function ScanEntry(e: Entry, words: seq<string>): (g: Group)
    ensures g.nameMatches == NameMatches(e.name, words)
    ensures (!IsSearchableFile(FullPath(e)) || e.lines.None?) ==> g.lines == []
    ensures (IsSearchableFile(FullPath(e)) && e.lines.Some?)
              ==> g.lines == ContentMatches(e.lines.value, words)
  {
    var content :=
      if IsSearchableFile(FullPath(e)) then
        match e.lines
        case None => []
        case Some(ls) => ContentMatches(ls, words)
      else [];
    Group(NameMatches(e.name, words), content)
  }

  /** A file whose read fails still reports its filename matches, and nothing else. */
  lemma ReadFailureKeepsNameMatches(e: Entry, words: seq<string>)
    requires e.lines.None?
    ensures ScanEntry(e, words) == Group(NameMatches(e.name, words), [])
  {
  }

  predicate HasMatches(g: Group)
  {
    g.nameMatches != {} || g.lines != []
  }

  /** Adds one file's contribution to what is already grouped under its path. */
  function Combine(g: Group, h: Group): Group
  {
    Group(g.nameMatches + h.nameMatches, g.lines + h.lines)
  }

  // ---------------------------------------------------------------------------
  // Grouping by relative path (reference definitions, by walk prefix)

  /** The keys of `grouped_results` in insertion order: relative paths of visited files, each
      at its first visit. */
  function Keys(es: seq<Entry>): (r: seq<string>)
    ensures forall a, b :: 0 <= a < b < |r| ==> r[a] != r[b]
    ensures forall k :: k in r <==> exists i :: 0 <= i < |es| && !IsSkipped(es[i].name) && es[i].relPath == k
    decreases |es|
  {
    if es == [] then []
    else
      var pre := es[..|es| - 1];
      var e := es[|es| - 1];
      var ks := Keys(pre);
      assert forall i :: 0 <= i < |pre| ==> pre[i] == es[i];
      AddKey(ks, e)
  }

  /** The keys after one more visit: its path is added unless skipped or already present. */
  function AddKey(ks: seq<string>, e: Entry): seq<string>
  {
    if IsSkipped(e.name) || e.relPath in ks then ks else ks + [e.relPath]
  }

  lemma KeysStep(es: seq<Entry>)
    requires es != []
    ensures Keys(es) == AddKey(Keys(es[..|es| - 1]), es[|es| - 1])
  {
  }

  /** Visit `i` of the walk is by a file not skipped, under the path `k`. */
  predicate VisitAt(es: seq<Entry>, k: string, i: int)
  {
    0 <= i < |es| && !IsSkipped(es[i].name) && es[i].relPath == k
  }

  /** Some visit of the path `x` comes before every visit of the path `y`. */
  ghost predicate VisitedBefore(es: seq<Entry>, x: string, y: string)
  {
    exists i :: VisitAt(es, x, i) && forall j :: 0 <= j <= i ==> !VisitAt(es, y, j)
  }

  /** The keys are in first-visit order: some visit of an earlier key comes before every
      visit of a later one. */
  lemma {:induction false} KeysFirstVisitOrder(es: seq<Entry>)
    ensures forall a, b :: 0 <= a < b < |Keys(es)| ==> VisitedBefore(es, Keys(es)[a], Keys(es)[b])
    decreases |es|
  {
    if es != [] {
      var pre := es[..|es| - 1];
      var e := es[|es| - 1];
      var ks := Keys(pre);
      var r := Keys(es);
      KeysFirstVisitOrder(pre);
      assert forall i :: 0 <= i < |pre| ==> pre[i] == es[i];
      assert forall k, i :: 0 <= i < |pre| ==> (VisitAt(pre, k, i) <==> VisitAt(es, k, i));
      forall a, b | 0 <= a < b < |r|
        ensures VisitedBefore(es, r[a], r[b])
      {
        assert r[a] == ks[a];
        if b < |ks| {
          assert r[b] == ks[b];
          assert VisitedBefore(pre, ks[a], ks[b]);
          var i :| VisitAt(pre, ks[a], i) && forall j :: 0 <= j <= i ==> !VisitAt(pre, ks[b], j);
          assert VisitAt(es, r[a], i);
        } else {
          assert r[b] == e.relPath && e.relPath !in ks;
          assert ks[a] in ks;
          var i :| 0 <= i < |pre| && !IsSkipped(pre[i].name) && pre[i].relPath == ks[a];
          assert VisitAt(pre, ks[a], i);
          forall j | 0 <= j <= i
            ensures !VisitAt(es, r[b], j)
          {
            assert j < |pre|;
          }
          assert VisitAt(es, r[a], i);
        }
      }
    } else {
      assert Keys(es) == [];
    }
  }

  /** `grouped_results[k]` after visiting `es`. */
  function Merged(es: seq<Entry>, k: string, words: seq<string>): Group
    decreases |es|
  {
    if es == [] then NoMatches
    else
      var e := es[|es| - 1];
      var g := Merged(es[..|es| - 1], k, words);
      if !IsSkipped(e.name) && e.relPath == k then Combine(g, ScanEntry(e, words)) else g
  }

  /** The union of the terms recorded on any of the lines. */
  function LineTerms(lines: seq<LineMatch>): set<string>
  {
    set k, w | 0 <= k < |lines| && w in lines[k].words :: w
  }

  /** The record kept for a path: `all_matched_words` is the filename matches together with
      every term recorded on a matching line. */
  function MakeRecord(path: string, g: Group): (r: Record)
    ensures r.path == path && r.nameMatches == g.nameMatches && r.lines == g.lines
    ensures forall w :: w in r.matchedTerms
                        <==> w in g.nameMatches
                             || exists k :: 0 <= k < |g.lines| && w in g.lines[k].words
  {
    Record(path, g.nameMatches + LineTerms(g.lines), g.nameMatches, g.lines)
  }

  /** The second pass over the keys `ks`: files without any match are dropped. */
  function Collect(ks: seq<string>, es: seq<Entry>, words: seq<string>): seq<Record>
    decreases |ks|
  {
    if ks == [] then []
    else
      var k := ks[|ks| - 1];
      var g := Merged(es, k, words);
      Collect(ks[..|ks| - 1], es, words) + (if HasMatches(g) then [MakeRecord(k, g)] else [])
  }

  /** The list `search_directory` returns, as a function of the walk. */
  function Results(es: seq<Entry>, words: seq<string>): seq<Record>
  {
    Collect(Keys(es), es, words)
  }

  // ---------------------------------------------------------------------------
  // The search itself

  /** `grouped_results` after visiting the walk `es`, built one entry at a time as the loop
      builds it. */
  function GroupedMap(es: seq<Entry>, words: seq<string>): map<string, Group>
    decreases |es|
  {
    if es == [] then map[]
    else
      var e := es[|es| - 1];
      var m := GroupedMap(es[..|es| - 1], words);
      if IsSkipped(e.name) then m
      else m[e.relPath := Combine(if e.relPath in m then m[e.relPath] else NoMatches,
                                  ScanEntry(e, words))]
  }

  /** The map the loop builds holds exactly the keys of the walk, each with the matches the
      reference `Merged` gathers for it. */
  lemma {:induction false} GroupedMapSpec(es: seq<Entry>, words: seq<string>)
    ensures GroupedMap(es, words).Keys == set k | k in Keys(es)
    ensures forall k :: k in GroupedMap(es, words) ==> GroupedMap(es, words)[k] == Merged(es, k, words)
    decreases |es|
  {
    if es != [] {
      var pre := es[..|es| - 1];
      var e := es[|es| - 1];
      GroupedMapSpec(pre, words);
      var m := GroupedMap(pre, words);
      if !IsSkipped(e.name) && e.relPath !in m {
        MergedOutsideKeys(pre, e.relPath, words);
      }
    }
  }

  /** The first pass: `grouped_results` and the order its keys were inserted in. */
  method GroupByPath(es: seq<Entry>, words: seq<string>)
    returns (grouped: map<string, Group>, order: seq<string>)
    ensures order == Keys(es)
    ensures grouped.Keys == set k | k in order
    ensures forall k :: k in grouped ==> grouped[k] == Merged(es, k, words)
  {
    grouped := map[];
    order := [];
    var i := 0;
    while i < |es|
      invariant 0 <= i <= |es|
      invariant order == Keys(es[..i])
      invariant grouped == GroupedMap(es[..i], words)
    {
      var e := es[i];
      assert es[..i + 1][..i] == es[..i];
      GroupedMapSpec(es[..i], words);
      if !IsSkipped(e.name) {
        var prev := NoMatches;
        if e.relPath in grouped {
          prev := grouped[e.relPath];
        } else {
          order := order + [e.relPath];
        }
        grouped := grouped[e.relPath := Combine(prev, ScanEntry(e, words))];
      }
      i := i + 1;
    }
    assert es[..|es|] == es;
    GroupedMapSpec(es, words);
  }

  /** The second pass: keep, in key order, a record for each path with some match. */
  method Finalize(order: seq<string>, grouped: map<string, Group>, es: seq<Entry>, words: seq<string>)
    returns (results: seq<Record>)
    requires forall k :: k in order ==> k in grouped && grouped[k] == Merged(es, k, words)
    ensures results == Collect(order, es, words)
  {
    results := [];
    var j := 0;
    while j < |order|
      invariant 0 <= j <= |order|
      invariant results == Collect(order[..j], es, words)
    {
      var k := order[j];
      assert order[..j + 1][..j] == order[..j];
      assert order[..j + 1][j] == k;
      if HasMatches(grouped[k]) {
        results := results + [MakeRecord(k, grouped[k])];
      }
      j := j + 1;
    }
    assert order[..|order|] == order;
  }

  /** `search_directory(directory, words)` over the walk `es`: the paths it reports are
      distinct, each has some match, and the list is the reference `Results`. */
  method SearchDirectory(es: seq<Entry>, words: seq<string>) returns (results: seq<Record>)
    ensures results == Results(es, words)
    ensures forall a, b :: 0 <= a < b < |results| ==> results[a].path != results[b].path
    ensures forall r :: r in results ==> r.nameMatches != {} || r.lines != []
  {
    var grouped, order := GroupByPath(es, words);
    results := Finalize(order, grouped, es, words);
    CollectShape(order, es, words);
  }

  /** A path not yet visited has gathered nothing. */
  lemma {:induction false} MergedOutsideKeys(es: seq<Entry>, k: string, words: seq<string>)
    requires k !in Keys(es)
    ensures Merged(es, k, words) == NoMatches
    decreases |es|
  {
    if es != [] {
      var pre := es[..|es| - 1];
      assert forall i :: 0 <= i < |pre| ==> pre[i] == es[i];
      MergedOutsideKeys(pre, k, words);
    }
  }

  /** The records of `Collect` come from distinct keys of `ks`, each with a match. */
  lemma {:induction false} CollectShape(ks: seq<string>, es: seq<Entry>, words: seq<string>)
    requires forall a, b :: 0 <= a < b < |ks| ==> ks[a] != ks[b]
    ensures forall a, b :: 0 <= a < b < |Collect(ks, es, words)|
                           ==> Collect(ks, es, words)[a].path != Collect(ks, es, words)[b].path
    ensures forall r :: r in Collect(ks, es, words) ==> r.path in ks && HasMatches(Merged(es, r.path, words))
    ensures forall r :: r in Collect(ks, es, words) ==> r == MakeRecord(r.path, Merged(es, r.path, words))
    ensures forall k :: k in ks && HasMatches(Merged(es, k, words))
                        ==> exists r :: r in Collect(ks, es, words) && r.path == k
    decreases |ks|
  {
    if ks != [] {
      var pre := ks[..|ks| - 1];
      var k := ks[|ks| - 1];
      CollectShape(pre, es, words);
      assert forall x :: x in ks <==> x in pre || x == k;
      assert k !in pre;
      var r := Collect(ks, es, words);
      var rp := Collect(pre, es, words);
      assert ks[..|ks| - 1] == pre;
      assert r == rp + (if HasMatches(Merged(es, k, words)) then [MakeRecord(k, Merged(es, k, words))] else []);
      forall x | x in ks && HasMatches(Merged(es, x, words))
        ensures exists q :: q in r && q.path == x
      {
        if x == k {
          assert r[|r| - 1].path == x;
        } else {
          var q :| q in rp && q.path == x;
          assert q in r;
        }
      }
    }
  }

  // ---------------------------------------------------------------------------
  // Properties of the result list

  lemma CombineHasMatches(g: Group, h: Group)
    ensures HasMatches(Combine(g, h)) <==> HasMatches(g) || HasMatches(h)
  {
    if g.lines + h.lines == [] {
      assert |g.lines| + |h.lines| == 0;
    }
  }

  /** Visit `e` of the walk, by a file not skipped, found some match for the path `k`. */
  predicate VisitMatches(e: Entry, k: string, words: seq<string>)
  {
    !IsSkipped(e.name) && e.relPath == k && HasMatches(ScanEntry(e, words))
  }

  /** Some element of `xs` satisfies `p`. */
  predicate AnyOf<T>(xs: seq<T>, p: T -> bool)
    decreases |xs|
  {
    xs != [] && (AnyOf(xs[..|xs| - 1], p) || p(xs[|xs| - 1]))
  }

  lemma {:induction false} AnyOfIff<T>(xs: seq<T>, p: T -> bool)
    ensures AnyOf(xs, p) <==> exists i :: 0 <= i < |xs| && p(xs[i])
    decreases |xs|
  {
    if xs != [] {
      var pre := xs[..|xs| - 1];
      AnyOfIff(pre, p);
      assert forall i :: 0 <= i < |pre| ==> pre[i] == xs[i];
    }
  }

  /** A path has gathered some match iff one of its visits found one. */
  lemma MergedHasMatches(es: seq<Entry>, k: string, words: seq<string>)
    ensures HasMatches(Merged(es, k, words)) <==> exists i :: 0 <= i < |es| && VisitMatches(es[i], k, words)
  {
    var p := e => VisitMatches(e, k, words);
    MergedAnyVisit(es, k, words);
    AnyOfIff(es, p);
    assert forall i :: 0 <= i < |es| ==> p(es[i]) == VisitMatches(es[i], k, words);
  }

  lemma {:induction false} MergedAnyVisit(es: seq<Entry>, k: string, words: seq<string>)
    ensures HasMatches(Merged(es, k, words)) <==> AnyOf(es, e => VisitMatches(e, k, words))
    decreases |es|
  {
    if es != [] {
      var pre := es[..|es| - 1];
      var e := es[|es| - 1];
      MergedAnyVisit(pre, k, words);
      if !IsSkipped(e.name) && e.relPath == k {
        CombineHasMatches(Merged(pre, k, words), ScanEntry(e, words));
      }
    }
  }

  /** A path is reported iff some visit of it, by a file not skipped, found a filename or a
      content match. */
  lemma RetainedIff(es: seq<Entry>, words: seq<string>, k: string)
    ensures (exists r :: r in Results(es, words) && r.path == k)
        <==> exists i :: 0 <= i < |es| && VisitMatches(es[i], k, words)
  {
    CollectShape(Keys(es), es, words);
    MergedHasMatches(es, k, words);
  }

  /** With no terms configured, no line records a term. */
  lemma {:induction false} ContentWithoutTerms(lines: seq<string>, n: nat)
    requires n <= |lines|
    ensures ContentFrom(lines, [], n) == []
    decreases |lines| - n
  {
    if n < |lines| {
      ContentWithoutTerms(lines, n + 1);
      assert Hits(lines[n], []) == [];
    }
  }

  lemma {:induction false} MergedWithoutTerms(es: seq<Entry>, k: string)
    ensures Merged(es, k, []) == NoMatches
    decreases |es|
  {
    if es != [] {
      var e := es[|es| - 1];
      MergedWithoutTerms(es[..|es| - 1], k);
      if e.lines.Some? {
        ContentWithoutTerms(e.lines.value, 0);
      }
      assert NameMatches(e.name, []) == {};
    }
  }

  lemma {:induction false} CollectWithoutTerms(ks: seq<string>, es: seq<Entry>)
    ensures Collect(ks, es, []) == []
    decreases |ks|
  {
    if ks != [] {
      CollectWithoutTerms(ks[..|ks| - 1], es);
      MergedWithoutTerms(es, ks[|ks| - 1]);
    }
  }

  /** An empty term list matches nothing: the report is empty. */
  lemma NoTermsNoResults(es: seq<Entry>)
    ensures Results(es, []) == []
  {
    CollectWithoutTerms(Keys(es), es);
  }

  /** A `._` file anywhere in the walk changes nothing. */
  lemma SkippedEntryIgnored(a: seq<Entry>, e: Entry, b: seq<Entry>, words: seq<string>)
    requires IsSkipped(e.name)
    ensures Results(a + [e] + b, words) == Results(a + b, words)
  {
    SkipKeys(a, e, b);
    forall k | k in Keys(a + b)
      ensures Merged(a + [e] + b, k, words) == Merged(a + b, k, words)
    {
      SkipMerged(a, e, b, k, words);
    }
    CollectCongruent(Keys(a + b), a + [e] + b, a + b, words);
  }

  lemma {:induction false} SkipKeys(a: seq<Entry>, e: Entry, b: seq<Entry>)
    requires IsSkipped(e.name)
    ensures Keys(a + [e] + b) == Keys(a + b)
    decreases |b|
  {
    var l := a + [e] + b;
    var r := a + b;
    KeysStep(l);
    if b == [] {
      assert l[..|l| - 1] == a && l[|l| - 1] == e;
      assert r == a;
    } else {
      var b' := b[..|b| - 1];
      KeysStep(r);
      assert l[..|l| - 1] == a + [e] + b' && l[|l| - 1] == b[|b| - 1];
      assert r[..|r| - 1] == a + b' && r[|r| - 1] == b[|b| - 1];
      SkipKeys(a, e, b');
    }
  }

  lemma {:induction false} SkipMerged(a: seq<Entry>, e: Entry, b: seq<Entry>, k: string, words: seq<string>)
    requires IsSkipped(e.name)
    ensures Merged(a + [e] + b, k, words) == Merged(a + b, k, words)
    decreases |b|
  {
    var l := a + [e] + b;
    var r := a + b;
    if b == [] {
      assert l[..|l| - 1] == a && l[|l| - 1] == e;
      assert r == a;
    } else {
      var b' := b[..|b| - 1];
      assert l[..|l| - 1] == a + [e] + b' && l[|l| - 1] == b[|b| - 1];
      assert r[..|r| - 1] == a + b' && r[|r| - 1] == b[|b| - 1];
      SkipMerged(a, e, b', k, words);
    }
  }

  /** `Collect` depends on the walk only through what it gathered for the given keys. */
  lemma {:induction false} CollectCongruent(ks: seq<string>, es1: seq<Entry>, es2: seq<Entry>, words: seq<string>)
    requires forall k :: k in ks ==> Merged(es1, k, words) == Merged(es2, k, words)
    ensures Collect(ks, es1, words) == Collect(ks, es2, words)
    decreases |ks|
  {
    if ks != [] {
      var pre := ks[..|ks| - 1];
      assert forall k :: k in pre ==> k in ks;
      CollectCongruent(pre, es1, es2, words);
      assert ks[|ks| - 1] in ks;
    }
  }

  /** Files not skipped have pairwise distinct relative paths, as in any real walk. */
  ghost predicate DistinctVisits(es: seq<Entry>)
  {
    forall i, j :: 0 <= i < j < |es| && !IsSkipped(es[i].name) && !IsSkipped(es[j].name)
                   ==> es[i].relPath != es[j].relPath
  }

  /** The report as a plain filter of the walk: each file not skipped that has some match,
      in the order the walk visits them. */
  function PerFile(es: seq<Entry>, words: seq<string>): seq<Record>
    decreases |es|
  {
    if es == [] then []
    else
      var e := es[|es| - 1];
      var g := ScanEntry(e, words);
      PerFile(es[..|es| - 1], words) + (if !IsSkipped(e.name) && HasMatches(g) then [MakeRecord(e.relPath, g)] else [])
  }

  /** Visiting a file under a new relative path appends its record, if it has a match. */
  lemma ResultsAppendFresh(pre: seq<Entry>, e: Entry, words: seq<string>)
    requires !IsSkipped(e.name) && e.relPath !in Keys(pre)
    ensures Results(pre + [e], words)
            == Results(pre, words)
               + (if HasMatches(ScanEntry(e, words)) then [MakeRecord(e.relPath, ScanEntry(e, words))] else [])
  {
    var es := pre + [e];
    var k := e.relPath;
    var g := ScanEntry(e, words);
    assert es[..|es| - 1] == pre && es[|es| - 1] == e;
    KeysStep(es);
    var ks := Keys(es);
    assert ks == Keys(pre) + [k];
    assert ks[..|ks| - 1] == Keys(pre) && ks[|ks| - 1] == k;
    forall x | x in Keys(pre)
      ensures Merged(es, x, words) == Merged(pre, x, words)
    {
      MergedAppend(pre, e, x, words);
    }
    CollectCongruent(Keys(pre), es, pre, words);
    MergedOutsideKeys(pre, k, words);
    MergedAppend(pre, e, k, words);
    assert Merged(es, k, words) == g;
  }

  /** Visiting one more file changes only what is gathered under its own path. */
  lemma MergedAppend(pre: seq<Entry>, e: Entry, k: string, words: seq<string>)
    ensures Merged(pre + [e], k, words)
            == if !IsSkipped(e.name) && e.relPath == k then Combine(Merged(pre, k, words), ScanEntry(e, words))
               else Merged(pre, k, words)
  {
    assert (pre + [e])[..|pre|] == pre;
  }

  /** When no relative path is visited twice, the grouped report is exactly the per-file
      filter, in walk order. */
  lemma {:induction false} DistinctVisitsResults(es: seq<Entry>, words: seq<string>)
    requires DistinctVisits(es)
    ensures Results(es, words) == PerFile(es, words)
    decreases |es|
  {
    if es != [] {
      DistinctPrefix(es);
      DistinctVisitsResults(es[..|es| - 1], words);
      if !IsSkipped(es[|es| - 1].name) {
        FreshKey(es);
      }
      ResultsStep(es, words);
    }
  }

  /** One more file keeps the grouped report equal to the per-file filter, provided its
      path is new or it is skipped. */
  lemma ResultsStep(es: seq<Entry>, words: seq<string>)
    requires es != []
    requires Results(es[..|es| - 1], words) == PerFile(es[..|es| - 1], words)
    requires !IsSkipped(es[|es| - 1].name) ==> es[|es| - 1].relPath !in Keys(es[..|es| - 1])
    ensures Results(es, words) == PerFile(es, words)
  {
    if IsSkipped(es[|es| - 1].name) {
      SkippedStep(es, words);
    } else {
      FreshStep(es, words);
    }
  }

  lemma SkippedStep(es: seq<Entry>, words: seq<string>)
    requires es != [] && IsSkipped(es[|es| - 1].name)
    requires Results(es[..|es| - 1], words) == PerFile(es[..|es| - 1], words)
    ensures Results(es, words) == PerFile(es, words)
  {
    var pre := es[..|es| - 1];
    var e := es[|es| - 1];
    assert es == pre + [e] + [];
    assert pre + [] == pre;
    SkippedEntryIgnored(pre, e, [], words);
  }

  lemma FreshStep(es: seq<Entry>, words: seq<string>)
    requires es != [] && !IsSkipped(es[|es| - 1].name)
    requires es[|es| - 1].relPath !in Keys(es[..|es| - 1])
    requires Results(es[..|es| - 1], words) == PerFile(es[..|es| - 1], words)
    ensures Results(es, words) == PerFile(es, words)
  {
    var pre := es[..|es| - 1];
    var e := es[|es| - 1];
    assert es == pre + [e];
    ResultsAppendFresh(pre, e, words);
  }

  lemma DistinctPrefix(es: seq<Entry>)
    requires es != [] && DistinctVisits(es)
    ensures DistinctVisits(es[..|es| - 1])
  {
    var pre := es[..|es| - 1];
    assert forall i :: 0 <= i < |pre| ==> pre[i] == es[i];
  }

  /** The last file of a walk without repeated paths brings a path not seen before. */
  lemma FreshKey(es: seq<Entry>)
    requires es != [] && DistinctVisits(es) && !IsSkipped(es[|es| - 1].name)
    ensures es[|es| - 1].relPath !in Keys(es[..|es| - 1])
  {
  }
}
