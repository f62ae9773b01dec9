/**
  The reading of `config.txt`: `KEY = value` lines, blank lines and `#` comments ignored,
  four recognised settings of which a later assignment overrides an earlier one, and the
  list of settings still missing afterwards. The lines of the file are the input.
 */
module Config {
  import opened Wrappers
  import opened Text

  /** The four settings; `None` is a setting never assigned. */
  datatype Settings = Settings(
    directory: Option<string>,
    words: Option<seq<string>>,
    baseUrl: Option<string>,
    outputFile: Option<string>)

  const Unset: Settings := Settings(None, None, None, None)

  /** One `key=value` assignment. */
  datatype Assignment = Assignment(key: string, value: string)

  /** A line after stripping: empty or a comment, so skipped. */
  predicate IsSkippedLine(t: string)
  {
    t == [] || t[0] == '#'
  }

  /** The assignment a line holds, if any: the stripped line, split at its first `=`, with
      both sides stripped. */
  function ParseLine(line: string): Option<Assignment>
  {
    var t := Strip(line);
    if IsSkippedLine(t) then None
    else match IndexOf(t, '=')
      case None => None
      case Some(k) => Some(Assignment(Strip(t[..k]), Strip(t[k + 1..])))
  }

  /** `[term.strip() for term in value.split(',')]`. */
  function SplitTerms(value: string): seq<string>
  {
    var parts := Split(value, ',');
    seq(|parts|, k requires 0 <= k < |parts| => Strip(parts[k]))
  }

  /** The effect of one assignment; an unknown key changes nothing. */
  function Assign(s: Settings, a: Assignment): Settings
  {
    if a.key == "DIRECTORY" then s.(directory := Some(a.value))
    else if a.key == "SEARCH_TERMS" then s.(words := Some(SplitTerms(a.value)))
    else if a.key == "BASE_URL" then s.(baseUrl := Some(a.value))
    else if a.key == "OUTPUT_FILE" then s.(outputFile := Some(a.value))
    else s
  }

  /** The settings after reading `lines` in order. */
  function ReadLines(lines: seq<string>): Settings
    decreases |lines|
  {
    if lines == [] then Unset
    else
      var s := ReadLines(lines[..|lines| - 1]);
      match ParseLine(lines[|lines| - 1])
      case None => s
      case Some(a) => Assign(s, a)
  }

  const Required: seq<string> := ["DIRECTORY", "SEARCH_TERMS", "BASE_URL", "OUTPUT_FILE"]

  /** Whether the setting named `Required[i]` is unassigned. */
  predicate IsMissing(s: Settings, i: nat)
    requires i < |Required|
  {
    if i == 0 then s.directory.None?
    else if i == 1 then s.words.None?
    else if i == 2 then s.baseUrl.None?
    else s.outputFile.None?
  }

  /** `missing_settings`. */
  function Missing(s: Settings): seq<string>
  {
    (if s.directory.None? then ["DIRECTORY"] else [])
    + (if s.words.None? then ["SEARCH_TERMS"] else [])
    + (if s.baseUrl.None? then ["BASE_URL"] else [])
    + (if s.outputFile.None? then ["OUTPUT_FILE"] else [])
  }

  // ---------------------------------------------------------------------------
  // Properties

  /** A line is ignored exactly when, stripped, it is empty, starts with `#`, or holds no
      `=`; otherwise its key is the stripped text before the first `=` and its value the
      stripped text after it, which may hold further `=`. */
  lemma ParseLineSpec(line: string)
    ensures var t := Strip(line);
            ParseLine(line).None? <==> t == [] || t[0] == '#' || '=' !in t
    ensures var t := Strip(line);
            ParseLine(line).Some? ==>
              exists k :: 0 <= k < |t| && t[k] == '=' && '=' !in t[..k]
                          && ParseLine(line).value == Assignment(Strip(t[..k]), Strip(t[k + 1..]))
    ensures ParseLine(line).Some? ==> '=' !in ParseLine(line).value.key
  {
    var t := Strip(line);
    if !IsSkippedLine(t) && IndexOf(t, '=').Some? {
      var k := IndexOf(t, '=').value;
      assert ParseLine(line) == Some(Assignment(Strip(t[..k]), Strip(t[k + 1..])));
      StripKeepsCharacters(t[..k]);
    }
  }

  /** The assignment of each line, in order. */
  function Parsed(lines: seq<string>): (ps: seq<Option<Assignment>>)
    ensures |ps| == |lines|
    ensures forall i :: 0 <= i < |lines| ==> ps[i] == ParseLine(lines[i])
  {
    seq(|lines|, i requires 0 <= i < |lines| => ParseLine(lines[i]))
  }

  /** Whether a parsed line assigns `key`. */
  predicate Assigns(p: Option<Assignment>, key: string)
  {
    p.Some? && p.value.key == key
  }

  /** The last value assigned to `key` among the parsed lines `ps`, or `None`. */
  function LastAssigned(ps: seq<Option<Assignment>>, key: string): Option<string>
    decreases |ps|
  {
    if ps == [] then None
    else if Assigns(ps[|ps| - 1], key) then Some(ps[|ps| - 1].value.value)
    else LastAssigned(ps[..|ps| - 1], key)
  }

  /** The last value assigned to `key` in `lines`, or `None`: the reference reading. */
  function LastValue(lines: seq<string>, key: string): Option<string>
  {
    LastAssigned(Parsed(lines), key)
  }

  /** Each setting is the value of the last line assigning it, the terms split and
      stripped; a setting no line assigns stays unset. */
  lemma {:induction false} ReadLinesLastWins(lines: seq<string>)
    ensures ReadLines(lines).directory == LastValue(lines, "DIRECTORY")
    ensures ReadLines(lines).words == match LastValue(lines, "SEARCH_TERMS")
                                      case None => None
                                      case Some(v) => Some(SplitTerms(v))
    ensures ReadLines(lines).baseUrl == LastValue(lines, "BASE_URL")
    ensures ReadLines(lines).outputFile == LastValue(lines, "OUTPUT_FILE")
    decreases |lines|
  {
    if lines != [] {
      var pre := lines[..|lines| - 1];
      var line := lines[|lines| - 1];
      ReadLinesLastWins(pre);
      assert Parsed(lines)[..|lines| - 1] == Parsed(pre);
      ReadStep(ReadLines(pre), ParseLine(line), ReadLines(lines));
    }
  }

  /** One line's effect on each setting, with the parsing left abstract. */
  lemma ReadStep(s: Settings, p: Option<Assignment>, s': Settings)
    requires s' == match p case None => s case Some(a) => Assign(s, a)
    ensures s'.directory == if p.Some? && p.value.key == "DIRECTORY" then Some(p.value.value) else s.directory
    ensures s'.words == if p.Some? && p.value.key == "SEARCH_TERMS" then Some(SplitTerms(p.value.value)) else s.words
    ensures s'.baseUrl == if p.Some? && p.value.key == "BASE_URL" then Some(p.value.value) else s.baseUrl
    ensures s'.outputFile == if p.Some? && p.value.key == "OUTPUT_FILE" then Some(p.value.value) else s.outputFile
  {
  }

  /** A value is the last one assigned to `key` exactly when some line assigns it to `key`
      and no later line assigns `key` again; nothing is assigned exactly when no line
      assigns `key`. */
  lemma LastValueIff(lines: seq<string>, key: string)
    ensures forall v :: LastValue(lines, key) == Some(v)
              <==> exists i :: 0 <= i < |lines| && ParseLine(lines[i]) == Some(Assignment(key, v))
                               && forall j :: i < j < |lines| ==> !Assigns(ParseLine(lines[j]), key)
    ensures LastValue(lines, key).None? <==> forall i :: 0 <= i < |lines| ==> !Assigns(ParseLine(lines[i]), key)
  {
    var ps := Parsed(lines);
    LastAssignedAbsent(ps, key);
    if LastValue(lines, key).Some? {
      LastAssignedFound(ps, key);
    }
    forall v, i | 0 <= i < |lines| && ParseLine(lines[i]) == Some(Assignment(key, v))
                  && (forall j :: i < j < |lines| ==> !Assigns(ParseLine(lines[j]), key))
      ensures LastValue(lines, key) == Some(v)
    {
      LastAssignedAt(ps, key, i);
    }
  }

  lemma {:induction false} LastAssignedFound(ps: seq<Option<Assignment>>, key: string)
    requires LastAssigned(ps, key).Some?
    ensures exists i :: 0 <= i < |ps| && ps[i] == Some(Assignment(key, LastAssigned(ps, key).value))
                        && forall j :: i < j < |ps| ==> !Assigns(ps[j], key)
    decreases |ps|
  {
    var last := |ps| - 1;
    if !Assigns(ps[last], key) {
      var pre := ps[..last];
      LastAssignedFound(pre, key);
      var i :| 0 <= i < |pre| && pre[i] == Some(Assignment(key, LastAssigned(pre, key).value))
               && forall j :: i < j < |pre| ==> !Assigns(pre[j], key);
      assert ps[i] == pre[i];
      forall j | i < j < |ps|
        ensures !Assigns(ps[j], key)
      {
        if j < last {
          assert ps[j] == pre[j];
        }
      }
    } else {
      assert ps[last] == Some(Assignment(key, LastAssigned(ps, key).value));
    }
  }

  lemma {:induction false} LastAssignedAt(ps: seq<Option<Assignment>>, key: string, i: nat)
    requires i < |ps| && Assigns(ps[i], key)
    requires forall j :: i < j < |ps| ==> !Assigns(ps[j], key)
    ensures LastAssigned(ps, key) == Some(ps[i].value.value)
    decreases |ps|
  {
    var last := |ps| - 1;
    if i < last {
      var pre := ps[..last];
      assert !Assigns(ps[last], key);
      assert pre[i] == ps[i];
      forall j | i < j < |pre|
        ensures !Assigns(pre[j], key)
      {
        assert pre[j] == ps[j];
      }
      LastAssignedAt(pre, key, i);
    }
  }

  lemma {:induction false} LastAssignedAbsent(ps: seq<Option<Assignment>>, key: string)
    ensures LastAssigned(ps, key).None? <==> forall i :: 0 <= i < |ps| ==> !Assigns(ps[i], key)
    decreases |ps|
  {
    if ps != [] {
      var last := |ps| - 1;
      var pre := ps[..last];
      LastAssignedAbsent(pre, key);
      forall i | 0 <= i < |pre|
        ensures pre[i] == ps[i]
      {
      }
    }
  }

  /** A line with no assignment, such as a comment, leaves the settings as they are. */
  lemma IgnoredLine(lines: seq<string>, line: string)
    requires ParseLine(line).None?
    ensures ReadLines(lines + [line]) == ReadLines(lines)
  {
    assert (lines + [line])[..|lines|] == lines;
  }

  /** A setting is reported missing exactly when it is unassigned, the report lists names
      in the fixed order DIRECTORY, SEARCH_TERMS, BASE_URL, OUTPUT_FILE, and it is empty
      exactly when all four are assigned. */
  lemma MissingSpec(s: Settings)
    ensures forall i :: 0 <= i < |Required| ==> (Required[i] in Missing(s) <==> IsMissing(s, i))
    ensures forall a :: 0 <= a < |Missing(s)| ==> Missing(s)[a] in Required
    ensures forall a, b :: 0 <= a < b < |Missing(s)| ==> Position(Missing(s)[a]) < Position(Missing(s)[b])
    ensures Missing(s) == [] <==> s.directory.Some? && s.words.Some? && s.baseUrl.Some? && s.outputFile.Some?
  {
    forall i | 0 <= i < |Required|
      ensures Required[i] in Missing(s) <==> IsMissing(s, i)
    {
      MissingAt(s, i);
    }
    MissingOrdered(s);
  }

  lemma MissingAt(s: Settings, i: nat)
    requires i < |Required|
    ensures Required[i] in Missing(s) <==> IsMissing(s, i)
  {
    NamesDiffer();
  }

  lemma MissingOrdered(s: Settings)
    ensures forall a :: 0 <= a < |Missing(s)| ==> Missing(s)[a] in Required
    ensures forall a, b :: 0 <= a < b < |Missing(s)| ==> Position(Missing(s)[a]) < Position(Missing(s)[b])
  {
    NamesDiffer();
  }

  /** The four names differ already in their first character. */
  lemma NamesDiffer()
    ensures Required[0][0] == 'D' && Required[1][0] == 'S' && Required[2][0] == 'B' && Required[3][0] == 'O'
    ensures forall i :: 0 <= i < |Required| ==> Position(Required[i]) == i
  {
  }

  /** The position of a setting name in `Required`. */
  function Position(name: string): nat
  {
    if name == "DIRECTORY" then 0
    else if name == "SEARCH_TERMS" then 1
    else if name == "BASE_URL" then 2
    else 3
  }

  /** The terms setting has one entry per comma-separated part, each stripped, and one more
      entry than the value has commas. */
  lemma SplitTermsSpec(value: string)
    ensures var parts := Split(value, ',');
            |SplitTerms(value)| == |parts|
            && Join(",", parts) == value
            && forall k :: 0 <= k < |parts| ==> SplitTerms(value)[k] == Strip(parts[k]) && ',' !in SplitTerms(value)[k]
  {
    var parts := Split(value, ',');
    forall k | 0 <= k < |parts|
      ensures ',' !in SplitTerms(value)[k]
    {
      StripKeepsCharacters(parts[k]);
    }
  }
}
