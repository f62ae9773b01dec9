/**
  Post-processing of one content excerpt: `highlight_search_terms`, a `re.sub` of the
  case-insensitive alternation `(t1|t2|...)` that wraps each match in a `<strong>` tag, and
  the 200-character truncation applied to its output.

  The substitution follows Python's scanner (3.7 and later): the search resumes where the
  previous match ended; at each position the first alternative that matches wins; an empty
  match is allowed right after a non-empty one, but a match that directly follows an empty
  match must not be empty at the same position.
 */
module Highlighting {
  import opened Wrappers
  import opened Text

  const Open: string := "<strong class=\"text-decoration-underline\">"
  const Close: string := "</strong>"

  /** A stretch of the input left as is, or one wrapped in the emphasis tags. */
  datatype Piece = Plain(text: string) | Marked(text: string)

  /** The alternatives of the compiled pattern. With no terms the pattern is `()`, whose one
      alternative is empty. */
  function Alternatives(terms: seq<string>): seq<string>
  {
    if terms == [] then [""] else terms
  }

  /** Alternative `t` may match at `p` in a search that resumed at `start`: it occurs there,
      ignoring case, and it is not an empty match at `start` right after an empty match. */
  predicate Admissible(text: string, t: string, p: nat, start: nat, mustAdvance: bool)
  {
    CiOccursAt(t, text, p) && !(mustAdvance && p == start && t == [])
  }

  /** The first alternative, from index `j` on, that may match at `p`. */
  function FirstAlt(text: string, alts: seq<string>, p: nat, start: nat, mustAdvance: bool, j: nat)
    : Option<nat>
    requires j <= |alts|
    decreases |alts| - j
  {
    if j == |alts| then None
    else if Admissible(text, alts[j], p, start, mustAdvance) then Some(j)
    else FirstAlt(text, alts, p, start, mustAdvance, j + 1)
  }

  /** `FirstAlt` finds an admissible alternative with none before it, or shows that no
      alternative from `j` on is admissible. */
  lemma {:induction false} FirstAltSpec(text: string, alts: seq<string>, p: nat, start: nat, mustAdvance: bool, j: nat)
    requires j <= |alts|
    ensures var r := FirstAlt(text, alts, p, start, mustAdvance, j);
      && (r.Some? ==> j <= r.value < |alts|
                      && Admissible(text, alts[r.value], p, start, mustAdvance)
                      && forall k :: j <= k < r.value ==> !Admissible(text, alts[k], p, start, mustAdvance))
      && (r.None? ==> forall k :: j <= k < |alts| ==> !Admissible(text, alts[k], p, start, mustAdvance))
    decreases |alts| - j
  {
    if j < |alts| && !Admissible(text, alts[j], p, start, mustAdvance) {
      FirstAltSpec(text, alts, p, start, mustAdvance, j + 1);
    }
  }

  /** A match found by the scanner: its position and the index of the alternative. */
  datatype Hit = Hit(pos: nat, alt: nat)

  /** `pattern.search(text, p)`: the leftmost position from `p` on where some alternative may
      match, with the first such alternative. */
  function NextHit(text: string, alts: seq<string>, start: nat, mustAdvance: bool, p: nat)
    : (r: Option<Hit>)
    ensures r.Some? ==>
      && p <= r.value.pos && r.value.alt < |alts| && r.value.pos + |alts[r.value.alt]| <= |text|
      && !(mustAdvance && r.value.pos == start && alts[r.value.alt] == [])
    decreases |text| + 1 - p
  {
    if p > |text| then None
    else
      FirstAltSpec(text, alts, p, start, mustAdvance, 0);
      match FirstAlt(text, alts, p, start, mustAdvance, 0)
      case Some(j) => Some(Hit(p, j))
      case None => NextHit(text, alts, start, mustAdvance, p + 1)
  }

  lemma {:induction false} NextHitScan(text: string, alts: seq<string>, start: nat, mustAdvance: bool, p: nat)
    ensures var r := NextHit(text, alts, start, mustAdvance, p);
      && (r.Some? ==> FirstAlt(text, alts, r.value.pos, start, mustAdvance, 0) == Some(r.value.alt)
                      && forall q :: p <= q < r.value.pos ==> FirstAlt(text, alts, q, start, mustAdvance, 0).None?)
      && (r.None? ==> forall q :: p <= q <= |text| ==> FirstAlt(text, alts, q, start, mustAdvance, 0).None?)
    decreases |text| + 1 - p
  {
    if p <= |text| {
      var f := FirstAlt(text, alts, p, start, mustAdvance, 0);
      if f.None? {
        NextHitScan(text, alts, start, mustAdvance, p + 1);
        var r := NextHit(text, alts, start, mustAdvance, p + 1);
        assert NextHit(text, alts, start, mustAdvance, p) == r;
        if r.Some? {
          assert forall q :: p + 1 <= q < r.value.pos ==> FirstAlt(text, alts, q, start, mustAdvance, 0).None?;
        }
      } else {
        assert NextHit(text, alts, start, mustAdvance, p) == Some(Hit(p, f.value));
      }
    }
  }

  /** What the search finds is a case-insensitive occurrence of the alternative. */
  lemma HitOccurs(text: string, alts: seq<string>, start: nat, mustAdvance: bool, p: nat, h: Hit)
    requires NextHit(text, alts, start, mustAdvance, p) == Some(h)
    ensures h.alt < |alts| && CiOccursAt(alts[h.alt], text, h.pos)
  {
    NextHitScan(text, alts, start, mustAdvance, p);
    FirstAltSpec(text, alts, h.pos, start, mustAdvance, 0);
  }

  /** The search finds the leftmost position where some alternative may match, and there
      the first alternative in pattern order; it finds nothing only when no alternative may
      match anywhere from `p` on. */
  lemma NextHitLeftmost(text: string, alts: seq<string>, start: nat, mustAdvance: bool, p: nat)
    ensures var r := NextHit(text, alts, start, mustAdvance, p);
      && (r.Some? ==>
            && Admissible(text, alts[r.value.alt], r.value.pos, start, mustAdvance)
            && (forall k :: 0 <= k < r.value.alt ==> !Admissible(text, alts[k], r.value.pos, start, mustAdvance))
            && (forall q, k :: p <= q < r.value.pos && 0 <= k < |alts|
                  ==> !Admissible(text, alts[k], q, start, mustAdvance)))
      && (r.None? ==>
            forall q, k :: p <= q && 0 <= k < |alts| ==> !Admissible(text, alts[k], q, start, mustAdvance))
  {
    NextHitScan(text, alts, start, mustAdvance, p);
    var r := NextHit(text, alts, start, mustAdvance, p);
    if r.None? {
      forall q, k | p <= q && 0 <= k < |alts|
        ensures !Admissible(text, alts[k], q, start, mustAdvance)
      {
        if q <= |text| {
          FirstAltSpec(text, alts, q, start, mustAdvance, 0);
        }
      }
    } else {
      FirstAltSpec(text, alts, r.value.pos, start, mustAdvance, 0);
      forall q, k | p <= q < r.value.pos && 0 <= k < |alts|
        ensures !Admissible(text, alts[k], q, start, mustAdvance)
      {
        FirstAltSpec(text, alts, q, start, mustAdvance, 0);
      }
    }
  }

  /** The input with its pieces' markup removed. */
  function Concat(ps: seq<Piece>): string
  {
    if ps == [] then [] else ps[0].text + Concat(ps[1..])
  }

  /** The substituted string. */
  function Render(ps: seq<Piece>): string
  {
    if ps == [] then []
    else (match ps[0] case Plain(t) => t case Marked(t) => Open + t + Close) + Render(ps[1..])
  }

  /** The pieces of one match found from `i` on: the skipped gap, if any, then the match. */
  function Step(text: string, alts: seq<string>, i: nat, h: Hit): seq<Piece>
    requires i <= h.pos && h.alt < |alts| && h.pos + |alts[h.alt]| <= |text|
  {
    (if i < h.pos then [Plain(text[i..h.pos])] else []) + [Marked(text[h.pos..h.pos + |alts[h.alt]|])]
  }

  /** The scan of `text` from index `i`. */
  function PiecesFrom(text: string, alts: seq<string>, i: nat, mustAdvance: bool): seq<Piece>
    requires i <= |text|
    decreases |text| - i, if mustAdvance then 0 else 1
  {
    match NextHit(text, alts, i, mustAdvance, i)
    case None => if i < |text| then [Plain(text[i..])] else []
    case Some(h) =>
      var e := h.pos + |alts[h.alt]|;
      Step(text, alts, i, h) + PiecesFrom(text, alts, e, e == h.pos)
  }

  /** The pieces of a scan cover the rest of the input exactly, in order. */
  lemma {:induction false} PiecesCover(text: string, alts: seq<string>, i: nat, mustAdvance: bool)
    requires i <= |text|
    ensures Concat(PiecesFrom(text, alts, i, mustAdvance)) == text[i..]
    decreases |text| - i, if mustAdvance then 0 else 1
  {
    var r := NextHit(text, alts, i, mustAdvance, i);
    if r.Some? {
      var h := r.value;
      var e := h.pos + |alts[h.alt]|;
      PiecesFromHit(text, alts, i, mustAdvance, h);
      var rest := PiecesFrom(text, alts, e, e == h.pos);
      PiecesCover(text, alts, e, e == h.pos);
      CoverStep(text, alts, i, h, rest);
    } else {
      PiecesFromMiss(text, alts, i, mustAdvance);
    }
  }

  /** When the search finds nothing, the rest of the input is one plain piece. */
  lemma PiecesFromMiss(text: string, alts: seq<string>, i: nat, mustAdvance: bool)
    requires i <= |text| && NextHit(text, alts, i, mustAdvance, i).None?
    ensures PiecesFrom(text, alts, i, mustAdvance) == if i < |text| then [Plain(text[i..])] else []
    ensures Concat(PiecesFrom(text, alts, i, mustAdvance)) == text[i..]
  {
    if i < |text| {
      assert Concat([Plain(text[i..])]) == text[i..] + Concat([]);
    }
  }

  lemma CoverStep(text: string, alts: seq<string>, i: nat, h: Hit, rest: seq<Piece>)
    requires i <= h.pos && h.alt < |alts| && h.pos + |alts[h.alt]| <= |text|
    requires Concat(rest) == text[h.pos + |alts[h.alt]|..]
    ensures Concat(Step(text, alts, i, h) + rest) == text[i..]
  {
    var e := h.pos + |alts[h.alt]|;
    StepConcat(text, alts, i, h);
    ConcatAppend(Step(text, alts, i, h), rest);
    assert text[i..] == text[i..e] + text[e..];
  }

  lemma StepConcat(text: string, alts: seq<string>, i: nat, h: Hit)
    requires i <= h.pos && h.alt < |alts| && h.pos + |alts[h.alt]| <= |text|
    ensures Concat(Step(text, alts, i, h)) == text[i..h.pos + |alts[h.alt]|]
  {
    var e := h.pos + |alts[h.alt]|;
    var m := Marked(text[h.pos..e]);
    assert Concat([m]) == m.text;
    if i < h.pos {
      var g := Plain(text[i..h.pos]);
      assert Concat([g, m]) == g.text + Concat([m]);
      assert [g] + [m] == [g, m];
    }
  }

  /** One step of the scan: the pieces up to the first match, then the scan after it. */
  lemma PiecesFromHit(text: string, alts: seq<string>, i: nat, mustAdvance: bool, h: Hit)
    requires i <= |text| && NextHit(text, alts, i, mustAdvance, i) == Some(h)
    ensures h.alt < |alts| && i <= h.pos && h.pos + |alts[h.alt]| <= |text|
    ensures PiecesFrom(text, alts, i, mustAdvance)
            == Step(text, alts, i, h) + PiecesFrom(text, alts, h.pos + |alts[h.alt]|, h.pos + |alts[h.alt]| == h.pos)
  {
  }

  /** Every marked piece equals, ignoring case, one of the alternatives. */
  predicate MarksAlternatives(ps: seq<Piece>, alts: seq<string>)
  {
    forall k :: 0 <= k < |ps| && ps[k].Marked? ==> exists a :: a in alts && Lower(ps[k].text) == Lower(a)
  }

  lemma MarksAppend(p: seq<Piece>, q: seq<Piece>, alts: seq<string>)
    requires MarksAlternatives(p, alts) && MarksAlternatives(q, alts)
    ensures MarksAlternatives(p + q, alts)
  {
    var r := p + q;
    assert forall k :: |p| <= k < |r| ==> r[k] == q[k - |p|];
  }

  lemma StepMarks(text: string, alts: seq<string>, i: nat, h: Hit)
    requires i <= h.pos && h.alt < |alts| && h.pos + |alts[h.alt]| <= |text|
    requires CiOccursAt(alts[h.alt], text, h.pos)
    ensures MarksAlternatives(Step(text, alts, i, h), alts)
  {
    var st := Step(text, alts, i, h);
    CiOccursAtIff(alts[h.alt], text, h.pos);
    assert st[|st| - 1].text == text[h.pos..h.pos + |alts[h.alt]|];
    assert alts[h.alt] in alts;
  }

  lemma PlainMarksNothing(ps: seq<Piece>, alts: seq<string>)
    requires |ps| <= 1 && (ps != [] ==> ps[0].Plain?)
    ensures MarksAlternatives(ps, alts)
  {
  }

  lemma MarkStep(text: string, alts: seq<string>, i: nat, h: Hit, rest: seq<Piece>)
    requires i <= h.pos && h.alt < |alts| && h.pos + |alts[h.alt]| <= |text|
    requires CiOccursAt(alts[h.alt], text, h.pos)
    requires MarksAlternatives(rest, alts)
    ensures MarksAlternatives(Step(text, alts, i, h) + rest, alts)
  {
    StepMarks(text, alts, i, h);
    MarksAppend(Step(text, alts, i, h), rest, alts);
  }

  /** Every marked piece of a scan is, ignoring case, one of the alternatives. */
  lemma {:induction false} PiecesMarkAlternatives(text: string, alts: seq<string>, i: nat, mustAdvance: bool)
    requires i <= |text|
    ensures MarksAlternatives(PiecesFrom(text, alts, i, mustAdvance), alts)
    decreases |text| - i, if mustAdvance then 0 else 1
  {
    var r := NextHit(text, alts, i, mustAdvance, i);
    if r.Some? {
      var h := r.value;
      var e := h.pos + |alts[h.alt]|;
      PiecesFromHit(text, alts, i, mustAdvance, h);
      var rest := PiecesFrom(text, alts, e, e == h.pos);
      PiecesMarkAlternatives(text, alts, e, e == h.pos);
      HitOccurs(text, alts, i, mustAdvance, i, h);
      MarkStep(text, alts, i, h, rest);
    } else {
      PiecesFromMiss(text, alts, i, mustAdvance);
      PlainMarksNothing(PiecesFrom(text, alts, i, mustAdvance), alts);
    }
  }

  /** No non-empty alternative occurs, ignoring case, at index `q` of `text`. */
  predicate NoAltAt(text: string, alts: seq<string>, q: int)
  {
    forall k :: 0 <= k < |alts| && alts[k] != [] && q >= 0 ==> !CiOccursAt(alts[k], text, q)
  }

  /** Laid out from index `off` of `text`, no plain piece of `ps` has an occurrence of a
      non-empty alternative starting inside it. */
  predicate PlainMissesAll(ps: seq<Piece>, text: string, alts: seq<string>, off: nat)
    decreases |ps|
  {
    ps == []
    || (&& (ps[0].Plain? ==> forall q :: off <= q < off + |ps[0].text| ==> NoAltAt(text, alts, q))
        && PlainMissesAll(ps[1..], text, alts, off + |ps[0].text|))
  }

  /** Before the position a search finds, no non-empty alternative occurs. */
  lemma GapMisses(text: string, alts: seq<string>, start: nat, mustAdvance: bool, p: nat)
    ensures var r := NextHit(text, alts, start, mustAdvance, p);
      && (r.Some? ==> forall q :: p <= q < r.value.pos ==> NoAltAt(text, alts, q))
      && (r.None? ==> forall q :: p <= q ==> NoAltAt(text, alts, q))
  {
    NextHitLeftmost(text, alts, start, mustAdvance, p);
    var r := NextHit(text, alts, start, mustAdvance, p);
    forall q, k | p <= q && (r.Some? ==> q < r.value.pos) && 0 <= k < |alts| && alts[k] != []
      ensures !CiOccursAt(alts[k], text, q)
    {
      assert !Admissible(text, alts[k], q, start, mustAdvance);
    }
  }

  lemma MissStep(text: string, alts: seq<string>, i: nat, h: Hit, rest: seq<Piece>)
    requires i <= h.pos && h.alt < |alts| && h.pos + |alts[h.alt]| <= |text|
    requires forall q :: i <= q < h.pos ==> NoAltAt(text, alts, q)
    requires PlainMissesAll(rest, text, alts, h.pos + |alts[h.alt]|)
    ensures PlainMissesAll(Step(text, alts, i, h) + rest, text, alts, i)
  {
    var m := [Marked(text[h.pos..h.pos + |alts[h.alt]|])];
    assert (m + rest)[1..] == rest;
    if i < h.pos {
      var ps := [Plain(text[i..h.pos])] + m + rest;
      assert Step(text, alts, i, h) + rest == ps;
      assert ps[1..] == m + rest;
    }
  }

  /** No plain piece of a scan has an occurrence of a non-empty alternative starting inside
      it: every such occurrence the scan passes over starts inside a marked piece. */
  lemma {:induction false} PiecesMissNothing(text: string, alts: seq<string>, i: nat, mustAdvance: bool)
    requires i <= |text|
    ensures PlainMissesAll(PiecesFrom(text, alts, i, mustAdvance), text, alts, i)
    decreases |text| - i, if mustAdvance then 0 else 1
  {
    var r := NextHit(text, alts, i, mustAdvance, i);
    GapMisses(text, alts, i, mustAdvance, i);
    if r.Some? {
      var h := r.value;
      var e := h.pos + |alts[h.alt]|;
      PiecesFromHit(text, alts, i, mustAdvance, h);
      var rest := PiecesFrom(text, alts, e, e == h.pos);
      PiecesMissNothing(text, alts, e, e == h.pos);
      MissStep(text, alts, i, h, rest);
    } else {
      PiecesFromMiss(text, alts, i, mustAdvance);
      var ps := PiecesFrom(text, alts, i, mustAdvance);
      if i < |text| {
        assert ps[1..] == [];
      }
    }
  }

  /** With non-empty terms, the highlighter leaves no occurrence of a term starting in the
      text it does not wrap. */
  lemma HighlightMissesNothing(text: string, terms: seq<string>)
    requires terms != []
    ensures PlainMissesAll(PiecesFrom(text, Alternatives(terms), 0, false), text, terms, 0)
  {
    PiecesMissNothing(text, Alternatives(terms), 0, false);
  }

  /** `highlight_search_terms(text, search_terms)`. */
  function Highlight(text: string, terms: seq<string>): string
  {
    Render(PiecesFrom(text, Alternatives(terms), 0, false))
  }

  lemma {:induction false} ConcatAppend(a: seq<Piece>, b: seq<Piece>)
    ensures Concat(a + b) == Concat(a) + Concat(b)
    decreases |a|
  {
    if a != [] {
      assert (a + b)[0] == a[0];
      assert (a + b)[1..] == a[1..] + b;
      ConcatAppend(a[1..], b);
      calc {
        Concat(a + b);
        a[0].text + Concat(a[1..] + b);
        a[0].text + (Concat(a[1..]) + Concat(b));
      }
    } else {
      assert a + b == b;
    }
  }

  lemma {:induction false} ConcatLacks(ps: seq<Piece>, c: char)
    requires c !in Concat(ps)
    ensures forall k :: 0 <= k < |ps| ==> c !in ps[k].text
    decreases |ps|
  {
    if ps != [] {
      ConcatLacks(ps[1..], c);
      forall k | 0 <= k < |ps|
        ensures c !in ps[k].text
      {
        if k > 0 { assert ps[k] == ps[1..][k - 1]; }
      }
    }
  }

  // ---------------------------------------------------------------------------
  // Deleting the inserted tags

  /** Deletes every occurrence of the opening and the closing emphasis tag. */
  function RemoveTags(s: string): string
    decreases |s|
  {
    if Open <= s then RemoveTags(s[|Open|..])
    else if Close <= s then RemoveTags(s[|Close|..])
    else if s == [] then []
    else [s[0]] + RemoveTags(s[1..])
  }

  lemma NotPrefix(p: string, s: string)
    requires p != [] && s != [] && p[0] != s[0]
    ensures !(p <= s)
  {
  }

  lemma {:induction false} RemoveTagsPlain(a: string, b: string)
    requires '<' !in a
    ensures RemoveTags(a + b) == a + RemoveTags(b)
    decreases |a|
  {
    if a != [] {
      var s := a + b;
      assert s[0] == a[0];
      NotPrefix(Open, s);
      NotPrefix(Close, s);
      assert s[1..] == a[1..] + b;
      assert RemoveTags(s) == [s[0]] + RemoveTags(s[1..]);
      RemoveTagsPlain(a[1..], b);
      assert [a[0]] + a[1..] == a;
    } else {
      assert a + b == b;
    }
  }

  lemma RemoveOpen(b: string)
    ensures RemoveTags(Open + b) == RemoveTags(b)
  {
    assert (Open + b)[..|Open|] == Open;
    assert (Open + b)[|Open|..] == b;
  }

  lemma RemoveClose(b: string)
    ensures RemoveTags(Close + b) == RemoveTags(b)
  {
    var c := Close + b;
    assert c[..|Close|] == Close;
    assert c[|Close|..] == b;
    assert c[1] == '/';
    assert !(Open <= c);
  }

  lemma RemoveTagsMarked(t: string, b: string)
    requires '<' !in t
    ensures RemoveTags(Open + t + Close + b) == t + RemoveTags(b)
  {
    assert Open + t + Close + b == Open + (t + (Close + b));
    RemoveOpen(t + (Close + b));
    RemoveTagsPlain(t, Close + b);
    RemoveClose(b);
  }

  lemma {:induction false} RenderRoundTrip(ps: seq<Piece>)
    requires forall k :: 0 <= k < |ps| ==> '<' !in ps[k].text
    ensures RemoveTags(Render(ps)) == Concat(ps)
    decreases |ps|
  {
    if ps != [] {
      RenderRoundTrip(ps[1..]);
      var rest := Render(ps[1..]);
      match ps[0]
      case Plain(t) =>
        RemoveTagsPlain(t, rest);
      case Marked(t) =>
        assert Open + t + Close + rest == (Open + t + Close) + rest;
        RemoveTagsMarked(t, rest);
    }
  }

  /** Deleting the inserted tags from a highlighted string gives back the input exactly;
      the original case of each match is kept. The input must not itself hold a `<`, which
      holds for every HTML-escaped line. */
  lemma HighlightRoundTrip(text: string, terms: seq<string>)
    requires '<' !in text
    ensures RemoveTags(Highlight(text, terms)) == text
  {
    var ps := PiecesFrom(text, Alternatives(terms), 0, false);
    PiecesCover(text, Alternatives(terms), 0, false);
    assert text[0..] == text;
    ConcatLacks(ps, '<');
    RenderRoundTrip(ps);
  }

  /** Every wrapped stretch of a highlighted string equals one of the terms, ignoring case. */
  lemma HighlightMarksTerms(text: string, terms: seq<string>)
    requires terms != []
    ensures forall k :: 0 <= k < |PiecesFrom(text, Alternatives(terms), 0, false)|
                        && PiecesFrom(text, Alternatives(terms), 0, false)[k].Marked?
                        ==> exists a :: a in terms
                                        && Lower(PiecesFrom(text, Alternatives(terms), 0, false)[k].text)
                                           == Lower(a)
  {
    PiecesMarkAlternatives(text, terms, 0, false);
  }

  /** When no term occurs anywhere in the text, ignoring case, and none is empty, the
      substitution leaves the text unchanged. */
  lemma NoOccurrenceUnchanged(text: string, terms: seq<string>)
    requires terms != [] && forall k :: 0 <= k < |terms| ==> terms[k] != []
    requires forall k, p: nat :: 0 <= k < |terms| ==> !CiOccursAt(terms[k], text, p)
    ensures Highlight(text, terms) == text
  {
    var alts := Alternatives(terms);
    assert text[0..] == text;
    var ps := PiecesFrom(text, alts, 0, false);
    NextHitLeftmost(text, alts, 0, false, 0);
    assert NextHit(text, alts, 0, false, 0).None?;
    if text == [] {
      assert ps == [];
    } else {
      assert ps == [Plain(text)];
      assert Render(ps) == text + Render([]);
    }
  }

  // ---------------------------------------------------------------------------
  // Truncation

  /** Longest excerpt shown whole. */
  const ExcerptLimit: nat := 200

  /** An excerpt longer than the limit is cut to its first 200 characters, then further back
      to the last space when that space is not at index 0, and gets an ellipsis. */
  function Truncate(h: string): (r: string)
    ensures |h| <= ExcerptLimit ==> r == h
    ensures |h| > ExcerptLimit ==>
      exists k :: 0 < k <= ExcerptLimit && r == h[..k] + "..."
                  && (forall i :: k < i < ExcerptLimit ==> h[i] != ' ')
                  && (k < ExcerptLimit ==> h[k] == ' ')
                  && (k == ExcerptLimit ==> forall i :: 0 < i < ExcerptLimit ==> h[i] != ' ')
    ensures |r| <= ExcerptLimit + 3
  {
    if |h| <= ExcerptLimit then h
    else
      var cut := h[..ExcerptLimit];
      match LastIndexOf(cut, ' ')
      case Some(k) =>
        if k > 0 then
          assert forall i :: k < i < ExcerptLimit ==> h[i] == cut[k + 1..][i - k - 1];
          cut[..k] + "..."
        else
          assert forall i :: 0 < i < ExcerptLimit ==> h[i] == cut[1..][i - 1];
          cut + "..."
      case None =>
        assert forall i :: 0 <= i < ExcerptLimit ==> h[i] == cut[i];
        cut + "..."
  }
}
