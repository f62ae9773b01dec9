/**
  The two matching disciplines of the search tool: a case-insensitive substring test on
  bare filenames (`is_string_in_filename`), and a case-insensitive whole-word regular
  expression `\bTERM\b` on content lines, where TERM is the term passed through
  `re.escape`. Word characters are the ASCII `\w` class.
 */
module Matching {
  import opened Text

  // ---------------------------------------------------------------------------
  // Filenames

  /** `search_string.lower() in filename.lower()`. */
  predicate InFilename(filename: string, term: string)
  {
    Contains(Lower(term), Lower(filename))
  }

  /** A filename match is exactly a case-insensitive occurrence of the term somewhere in
      the name; in particular the empty term matches every name. */
  lemma InFilenameIff(filename: string, term: string)
    ensures InFilename(filename, term) <==> exists i: nat :: CiOccursAt(term, filename, i)
  {
    if InFilename(filename, term) {
      var i: nat :| OccursAt(Lower(term), Lower(filename), i);
      LowerSlice(filename, i, i + |term|);
      CiOccursAtIff(term, filename, i);
    }
    if exists i: nat :: CiOccursAt(term, filename, i) {
      var i: nat :| CiOccursAt(term, filename, i);
      CiOccursAtIff(term, filename, i);
      LowerSlice(filename, i, i + |term|);
      assert OccursAt(Lower(term), Lower(filename), i);
    }
  }

  // ---------------------------------------------------------------------------
  // Word boundaries

  /** The ASCII `\w` class. */
  predicate IsWordChar(c: char)
  {
    'a' <= c <= 'z' || 'A' <= c <= 'Z' || '0' <= c <= '9' || c == '_'
  }

  predicate IsWord(s: string)
  {
    forall i :: 0 <= i < |s| ==> IsWordChar(s[i])
  }

  /** Index `i` of `s` exists and holds a word character; positions outside `s` do not. */
  predicate WordCharAt(s: string, i: int)
  {
    0 <= i < |s| && IsWordChar(s[i])
  }

  /** `\b` at position `i` (between `s[i-1]` and `s[i]`): word-ness differs on the two sides. */
  predicate Boundary(s: string, i: int)
  {
    WordCharAt(s, i - 1) != WordCharAt(s, i)
  }

  /** `\bTERM\b` matches at index `i` under `re.IGNORECASE`. */
  predicate WholeWordAt(term: string, s: string, i: nat)
  {
    CiOccursAt(term, s, i) && Boundary(s, i) && Boundary(s, i + |term|)
  }

  ghost predicate HasWholeWord(term: string, s: string)
  {
    exists i: nat :: WholeWordAt(term, s, i)
  }

  function SearchWordFrom(term: string, s: string, from: nat): (r: bool)
    ensures r <==> exists i: nat :: from <= i && WholeWordAt(term, s, i)
    decreases |s| - from
  {
    if from + |term| > |s| then false
    else if WholeWordAt(term, s, from) then true
    else SearchWordFrom(term, s, from + 1)
  }

  /** `pattern.search(line)` for the pattern built from `term`. */
  function SearchWord(term: string, line: string): (r: bool)
    ensures r <==> HasWholeWord(term, line)
  {
    SearchWordFrom(term, line, 0)
  }

  lemma LowerKeepsWordChar(c: char)
    ensures IsWordChar(LowerChar(c)) <==> IsWordChar(c)
  {
  }

  /** For a non-empty term made of word characters, `\b` on both sides means exactly that
      the occurrence is neither preceded nor followed by a word character. */
  lemma WholeWordOfWordTerm(term: string, s: string, i: nat)
    requires term != [] && IsWord(term)
    ensures WholeWordAt(term, s, i)
        <==> CiOccursAt(term, s, i) && !WordCharAt(s, i - 1) && !WordCharAt(s, i + |term|)
  {
    if CiOccursAt(term, s, i) {
      var n := |term|;
      CiOccursAtIff(term, s, i);
      assert Lower(s[i..i + n])[0] == Lower(term)[0];
      assert Lower(s[i..i + n])[n - 1] == Lower(term)[n - 1];
      LowerKeepsWordChar(s[i]);
      LowerKeepsWordChar(term[0]);
      LowerKeepsWordChar(s[i + n - 1]);
      LowerKeepsWordChar(term[n - 1]);
      assert WordCharAt(s, i) && WordCharAt(s, i + n - 1);
    }
  }

  /** "cat" is not a whole word of "category" ... */
  lemma CatNotInCategory()
    ensures !HasWholeWord("cat", "category")
  {
    var s := "category";
    forall i: nat | CiOccursAt("cat", s, i)
      ensures !WholeWordAt("cat", s, i)
    {
      if i == 0 {
        assert WordCharAt(s, 3);
      }
    }
  }

  /** ... but it is one of "the Cat sat", whatever its case there. */
  lemma CatInSentence()
    ensures HasWholeWord("cat", "the Cat sat")
  {
    var s := "the Cat sat";
    assert s[4..7] == "Cat";
    assert Lower("Cat") == "cat";
    CiOccursAtIff("cat", s, 4);
    assert WholeWordAt("cat", s, 4);
  }

  // ---------------------------------------------------------------------------
  // re.escape

  /** The characters Python's `re.escape` prefixes with a backslash (Python 3.7 and later). */
  predicate IsRegexSpecial(c: char)
  {
    || c == '(' || c == ')' || c == '[' || c == ']' || c == '{' || c == '}'
    || c == '?' || c == '*' || c == '+' || c == '-' || c == '|' || c == '^'
    || c == '$' || c == '\\' || c == '.' || c == '&' || c == '~' || c == '#'
    || c == ' ' || c == '\t' || c == '\n' || c == '\r' || c == 11 as char || c == 12 as char
  }

  /** The escape of one character: a backslash in front of a special one. */
  function EscapeOne(c: char): string
  {
    if IsRegexSpecial(c) then ['\\', c] else [c]
  }

  /** `re.escape(term)`: each special character gets a backslash in front of it. */
  function RegexEscape(term: string): string
    decreases |term|
  {
    if term == [] then [] else EscapeOne(term[0]) + RegexEscape(term[1..])
  }

  lemma RegexEscapeCons(c: char, t: string)
    ensures RegexEscape([c] + t) == EscapeOne(c) + RegexEscape(t)
  {
    assert ([c] + t)[0] == c;
    assert ([c] + t)[1..] == t;
  }

  /** Escaping at most doubles the length, and leaves a word unchanged. */
  lemma {:induction false} RegexEscapeBounds(term: string)
    ensures |term| <= |RegexEscape(term)| <= 2 * |term|
    ensures IsWord(term) ==> RegexEscape(term) == term
    decreases |term|
  {
    if term != [] {
      RegexEscapeBounds(term[1..]);
      assert IsWord(term) ==> IsWordChar(term[0]) && IsWord(term[1..]);
      assert [term[0]] + term[1..] == term;
    }
  }

  /** What the regular-expression parser reads back from an escaped literal: a backslash
      stands for the character after it. */
  function RegexUnescape(p: string): string
    decreases |p|
  {
    if p == [] then []
    else if p[0] == '\\' && |p| >= 2 then [p[1]] + RegexUnescape(p[2..])
    else [p[0]] + RegexUnescape(p[1..])
  }

  /** The escaped pattern denotes the term itself, so `\bESCAPED\b` searches for the literal
      term. */
  lemma {:induction false} RegexEscapeRoundTrip(term: string)
    ensures RegexUnescape(RegexEscape(term)) == term
    decreases |term|
  {
    if term != [] {
      var c := term[0];
      var rest := RegexEscape(term[1..]);
      RegexEscapeRoundTrip(term[1..]);
      if IsRegexSpecial(c) {
        assert (['\\', c] + rest)[2..] == rest;
      } else {
        assert c != '\\';
        assert ([c] + rest)[1..] == rest;
      }
      assert [c] + term[1..] == term;
    }
  }
}
