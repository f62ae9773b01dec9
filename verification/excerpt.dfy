/**
  The strings `search_directory` builds for each reported path: the comma-joined matched
  terms and the match-details excerpt, a sequence of `<div class='match-details'>` blocks
  (the filename matches, then a header and one `match-line` block per matching line).

  Joining a Python set follows the set's iteration order, which the language leaves open;
  it is a parameter here, any sequence listing each element of the set exactly once.
 */
module Excerpt {
  import opened Wrappers
  import opened Text
  import opened Matching
  import opened Highlighting
  import opened Search

  /** `order` lists the elements of `s`, each exactly once. */
  predicate IsEnumeration(order: seq<string>, s: set<string>)
  {
    && (set w | w in order) == s
    && (forall i, j :: 0 <= i < j < |order| ==> order[i] != order[j])
  }

  /** The recorded terms of a line with their `re.escape` backslashes read back. */
  function Unescaped(ws: seq<string>): (r: seq<string>)
    ensures |r| == |ws|
    ensures forall k :: 0 <= k < |ws| ==> r[k] == RegexUnescape(ws[k])
  {
    seq(|ws|, k requires 0 <= k < |ws| => RegexUnescape(ws[k]))
  }

  /** The excerpt text shown for one line: the stored (already escaped) terms are escaped a
      second time by `highlight_search_terms`, then the result is truncated. */
  function ShownAsWritten(m: LineMatch): (r: string)
    ensures |r| <= ExcerptLimit + 3
  {
    Truncate(Highlight(m.content, m.words))
  }

  /** The excerpt text as evidently intended: the line's matched terms themselves are
      highlighted. Only the lemmas about the highlighting defect use it. */
  function Shown(m: LineMatch): (r: string)
    ensures |r| <= ExcerptLimit + 3
  {
    Truncate(Highlight(m.content, Unescaped(m.words)))
  }

  const LinePrefix: string := "<div class='match-line'>Line "

  /** One `match-line` block. */
  function LineDiv(m: LineMatch): string
  {
    LinePrefix + NatToString(m.lineNum) + ":" + LineDivTail(m)
  }

  /** The part of a `match-line` block after the colon that follows its line number. */
  function LineDivTail(m: LineMatch): string
  {
    " <span class='match-terms'>[" + HtmlEscape(Join(", ", m.words)) + "]</span> " + ShownAsWritten(m) + "</div>"
  }

  function LineDivs(ms: seq<LineMatch>): (r: seq<string>)
    ensures |r| == |ms|
    ensures forall k :: 0 <= k < |ms| ==> r[k] == LineDiv(ms[k])
  {
    seq(|ms|, k requires 0 <= k < |ms| => LineDiv(ms[k]))
  }

  const FilenameHeader: string := "<strong>Found in filename:</strong> "
  const ContentHeader: string := "<strong>Content matches:</strong>"

  /** `match_details` of one record; `nameOrder` is the iteration order of its filename
      matches. */
  function Details(r: Record, nameOrder: seq<string>): seq<string>
    requires IsEnumeration(nameOrder, r.nameMatches)
  {
    (if r.nameMatches != {} then [FilenameHeader + HtmlEscape(Join(", ", nameOrder))] else [])
    + (if r.lines != [] then [ContentHeader] + LineDivs(r.lines) else [])
  }

  const DetailsOpen: string := "<div class='match-details'>"
  const DetailsSep: string := "</div><div class='match-details'>"
  const DetailsClose: string := "</div>"

  /** `match_excerpt`. */
  function MatchExcerpt(r: Record, nameOrder: seq<string>): string
    requires IsEnumeration(nameOrder, r.nameMatches)
  {
    DetailsOpen + Join(DetailsSep, Details(r, nameOrder)) + DetailsClose
  }

  /** One tuple of the list `search_directory` returns. */
  datatype Row = Row(path: string, terms: string, excerpt: string)

  function MakeRow(r: Record, termOrder: seq<string>, nameOrder: seq<string>): Row
    requires IsEnumeration(termOrder, r.matchedTerms)
    requires IsEnumeration(nameOrder, r.nameMatches)
  {
    Row(r.path, Join(", ", termOrder), MatchExcerpt(r, nameOrder))
  }

  // ---------------------------------------------------------------------------
  // Properties

  /** The details list holds the filename block iff some filename matched, then, when some
      line matched, the header followed by one block per matching line in line order; a
      reported path always has at least one block. */
  lemma DetailsShape(r: Record, nameOrder: seq<string>)
    requires IsEnumeration(nameOrder, r.nameMatches)
    ensures var d := Details(r, nameOrder);
      && |d| == (if r.nameMatches != {} then 1 else 0) + (if r.lines != [] then 1 + |r.lines| else 0)
      && (r.nameMatches != {} ==> d[0] == FilenameHeader + HtmlEscape(Join(", ", nameOrder)))
      && (r.lines != [] ==> d[|d| - |r.lines| - 1..] == [ContentHeader] + LineDivs(r.lines))
      && (r.nameMatches != {} || r.lines != [] ==> d != [])
  {
    var d := Details(r, nameOrder);
    var f := if r.nameMatches != {} then [FilenameHeader + HtmlEscape(Join(", ", nameOrder))] else [];
    var c := if r.lines != [] then [ContentHeader] + LineDivs(r.lines) else [];
    assert d == f + c;
    assert d[|f|..] == c;
  }

  /** A returned row holds the record's path; its excerpt is the opening tag, the detail
      blocks in order with one separator between neighbours, and the closing tag; and every
      matched term is listed in its terms cell. */
  lemma RowLayout(r: Record, termOrder: seq<string>, nameOrder: seq<string>)
    requires IsEnumeration(termOrder, r.matchedTerms)
    requires IsEnumeration(nameOrder, r.nameMatches)
    ensures MakeRow(r, termOrder, nameOrder).path == r.path
    ensures WrappedJoin(MakeRow(r, termOrder, nameOrder).excerpt, DetailsOpen, DetailsSep, DetailsClose, Details(r, nameOrder))
    ensures forall w :: w in r.matchedTerms ==>
              exists k :: 0 <= k < |termOrder| && termOrder[k] == w
                          && OccursAt(w, MakeRow(r, termOrder, nameOrder).terms, PartStart(", ", termOrder, k))
  {
    var d := Details(r, nameOrder);
    assert MakeRow(r, termOrder, nameOrder).excerpt == DetailsOpen + Join(DetailsSep, d) + DetailsClose;
    assert MakeRow(r, termOrder, nameOrder).terms == Join(", ", termOrder);
    WrappedJoinLayout(DetailsOpen, DetailsSep, DetailsClose, d);
    TermsListed(termOrder, r.matchedTerms);
  }

  /** Joining an enumeration of a set lists every element at the start index of its part. */
  lemma TermsListed(order: seq<string>, terms: set<string>)
    requires IsEnumeration(order, terms)
    ensures forall w :: w in terms ==>
              exists k :: 0 <= k < |order| && order[k] == w && OccursAt(w, Join(", ", order), PartStart(", ", order, k))
  {
    if order != [] {
      JoinLayout(", ", order);
    }
    forall w | w in terms
      ensures exists k :: 0 <= k < |order| && order[k] == w && OccursAt(w, Join(", ", order), PartStart(", ", order, k))
    {
      assert w in order;
      var k :| 0 <= k < |order| && order[k] == w;
    }
  }

  /** Reading a `match-line` block back: after the fixed prefix come decimal digits that
      spell the line number, then a colon. */
  lemma LineNumberReadBack(m: LineMatch)
    ensures exists e :: |LinePrefix| < e < |LineDiv(m)| && LineDiv(m)[e] == ':'
                        && (forall i :: |LinePrefix| <= i < e ==> IsDigit(LineDiv(m)[i]))
                        && ParseDecimal(LineDiv(m)[|LinePrefix|..e]) == m.lineNum
  {
    var tail := LineDivTail(m);
    assert (":" + tail)[0] == ':';
    assert LineDiv(m) == LinePrefix + NatToString(m.lineNum) + (":" + tail);
    NatToStringReadBack(LinePrefix, m.lineNum, ":" + tail);
  }

  /** For a line the scan recorded, the highlighter is given exactly the configured terms
      that matched the line, in configured order, so its marked stretches are those terms,
      ignoring case. */
  lemma ShownHighlightsMatchedTerms(line: string, words: seq<string>, ln: nat)
    requires LineWords(line, words) != []
    ensures Unescaped(RecordOf(line, words, ln).words) == seq(|Hits(line, words)|, k requires 0 <= k < |Hits(line, words)| => words[Hits(line, words)[k]])
    ensures forall k :: 0 <= k < |Hits(line, words)| ==> HasWholeWord(Unescaped(RecordOf(line, words, ln).words)[k], line)
    ensures var text := RecordOf(line, words, ln).content;
            var terms := Unescaped(RecordOf(line, words, ln).words);
            forall k :: 0 <= k < |PiecesFrom(text, Alternatives(terms), 0, false)|
                        && PiecesFrom(text, Alternatives(terms), 0, false)[k].Marked?
                        ==> exists a :: a in terms && Lower(PiecesFrom(text, Alternatives(terms), 0, false)[k].text) == Lower(a)
  {
    var h := Hits(line, words);
    var ws := LineWords(line, words);
    LineWordsSpec(line, words);
    forall k | 0 <= k < |h|
      ensures Unescaped(ws)[k] == words[h[k]]
    {
      RegexEscapeRoundTrip(words[h[k]]);
    }
    HighlightMarksTerms(RecordOf(line, words, ln).content, Unescaped(ws));
  }

  /** Deleting the emphasis tags from the shown excerpt of a line, when it is short enough to
      be kept whole, gives back the stripped, escaped line. */
  lemma ShownRoundTrip(line: string, words: seq<string>, ln: nat)
    requires |Highlight(HtmlEscape(Strip(line)), LineWords(line, words))| <= ExcerptLimit
    ensures RemoveTags(ShownAsWritten(RecordOf(line, words, ln))) == HtmlEscape(Strip(line))
  {
    HtmlEscapeSafe(Strip(line));
    ShownKeepsText(RecordOf(line, words, ln));
  }

  lemma ShownKeepsText(m: LineMatch)
    requires '<' !in m.content
    requires |Highlight(m.content, m.words)| <= ExcerptLimit
    ensures RemoveTags(ShownAsWritten(m)) == m.content
  {
    HighlightRoundTrip(m.content, m.words);
  }

  /** The defect needs a term with a special character: when every recorded term is made of
      word characters, unescaping changes nothing and both excerpts agree. */
  lemma WordTermsUnaffected(m: LineMatch)
    requires forall k :: 0 <= k < |m.words| ==> IsWord(m.words[k])
    ensures Shown(m) == ShownAsWritten(m)
  {
    forall k | 0 <= k < |m.words|
      ensures Unescaped(m.words)[k] == m.words[k]
    {
      RegexEscapeBounds(m.words[k]);
      RegexEscapeRoundTrip(m.words[k]);
    }
    assert Unescaped(m.words) == m.words;
  }

  /** A highlighted text that is one whole occurrence of the first term is wrapped whole. */
  lemma WholeTextHighlighted(text: string, terms: seq<string>)
    requires terms != [] && forall k :: 0 <= k < |terms| ==> terms[k] != []
    requires |terms[0]| == |text| && CiOccursAt(terms[0], text, 0)
    ensures Highlight(text, terms) == Open + text + Close
  {
    var alts := Alternatives(terms);
    var n := |text|;
    assert FirstAlt(text, alts, 0, 0, false, 0) == Some(0);
    assert NextHit(text, alts, 0, false, 0) == Some(Hit(0, 0));
    assert NextHit(text, alts, n, false, n).None?;
    assert PiecesFrom(text, alts, n, false) == [];
    assert text[0..n] == text;
    var ps := PiecesFrom(text, alts, 0, false);
    assert Step(text, alts, 0, Hit(0, 0)) == [Marked(text)];
    assert ps == [Marked(text)] + [];
    assert ps[1..] == [];
    assert Render(ps) == Open + text + Close + Render([]);
  }

  lemma EmailHits()
    ensures Hits("e-mail", ["e-mail"]) == [0]
  {
    var line := "e-mail";
    assert Lower(line[0..6]) == line;
    CiOccursAtIff("e-mail", line, 0);
    assert WholeWordAt("e-mail", line, 0);
    assert SearchWord("e-mail", line);
    assert HitsFrom(line, ["e-mail"], 1) == [];
  }

  lemma EmailTailEscape()
    ensures RegexEscape("-mail") == "\\-mail"
  {
  }

  lemma EmailEscape()
    ensures RegexEscape("e-mail") == "e\\-mail"
    ensures RegexUnescape("e\\-mail") == "e-mail"
  {
    EmailTailEscape();
    assert "e-mail"[1..] == "-mail";
    RegexEscapeRoundTrip("e-mail");
  }

  lemma EmailStrip()
    ensures Strip("e-mail") == "e-mail"
  {
    var line := "e-mail";
    assert !IsSpace(line[0]) && !IsSpace(line[|line| - 1]);
    StripUnchanged(line);
  }

  lemma EmailHtml()
    ensures HtmlEscape("e-mail") == "e-mail"
  {
    assert HtmlEscape("il") == "il";
    assert HtmlEscape("mail") == "mail";
  }

  lemma EmailContent()
    ensures HtmlEscape(Strip("e-mail")) == "e-mail"
  {
    EmailStrip();
    EmailHtml();
  }

  /** The line "e-mail" matches the term "e-mail" and is recorded with the escaped term
      `e\-mail`. */
  lemma EmailRecorded()
    ensures LineWords("e-mail", ["e-mail"]) == ["e\\-mail"]
    ensures RecordOf("e-mail", ["e-mail"], 1) == LineMatch(1, "e-mail", ["e\\-mail"])
  {
    EmailHits();
    EmailEscape();
    EmailContent();
  }

  /** As written, nothing is highlighted in the recorded line "e-mail" ... */
  lemma EscapedTermNotHighlighted()
    ensures ShownAsWritten(LineMatch(1, "e-mail", ["e\\-mail"])) == "e-mail"
  {
    NoOccurrenceUnchanged("e-mail", ["e\\-mail"]);
  }

  /** ... while the matched term itself is highlighted. */
  lemma MatchedTermHighlighted()
    ensures Shown(LineMatch(1, "e-mail", ["e\\-mail"])) == Open + "e-mail" + Close
  {
    var line := "e-mail";
    var terms := Unescaped(["e\\-mail"]);
    assert terms == ["e-mail"] by {
      EmailEscape();
    }
    assert CiOccursAt("e-mail", line, 0) by {
      assert Lower(line[0..6]) == line;
      CiOccursAtIff("e-mail", line, 0);
    }
    WholeTextHighlighted(line, terms);
    assert |Open + line + Close| <= ExcerptLimit;
  }
}
