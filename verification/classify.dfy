/**
  Which files have their contents scanned: `TEXT_EXTENSIONS` and `is_searchable_file`.
  The test is applied to the joined path of a file, not to its bare name; because a bare
  name holds no `/` and no extension holds one, the two always agree.
 */
module Classify {
  import opened Wrappers
  import opened Text

  /** `TEXT_EXTENSIONS`: the lower-case extensions whose files are read. */
  const TextExtensions: set<string> :=
    {"txt", "html", "shtml", "htm", "css", "js", "py", "java", "c", "cpp", "h", "php", "xml",
     "json", "md", "csv", "log", "sql", "sh", "bat", "ini", "conf", "yaml", "yml", "pl", "tt"}

  /** `file_path.split(".")[-1].lower() if "." in file_path else ""`. */
  function Extension(path: string): string
  {
    match LastIndexOf(path, '.')
    case None => ""
    case Some(k) => Lower(path[k + 1..])
  }

  /** `is_searchable_file(file_path)`. */
  predicate IsSearchableFile(path: string)
  {
    Extension(path) in TextExtensions
  }

  /** The index `LastIndexOf` finds is the only dot with no dot after it. */
  lemma LastDotUnique(path: string, k: nat)
    requires k < |path| && path[k] == '.' && '.' !in path[k + 1..]
    ensures LastIndexOf(path, '.') == Some(k)
  {
  }

  /** A path is content-searchable exactly when it holds a dot and the lower-cased text after
      its last dot is one of the text extensions. */
  lemma SearchableIff(path: string)
    ensures IsSearchableFile(path)
        <==> exists k: nat :: k < |path| && path[k] == '.' && '.' !in path[k + 1..]
                              && Lower(path[k + 1..]) in TextExtensions
  {
    assert "" !in TextExtensions;
    forall k: nat | k < |path| && path[k] == '.' && '.' !in path[k + 1..]
      ensures Extension(path) == Lower(path[k + 1..])
    {
      LastDotUnique(path, k);
    }
  }

  /** A path without a dot is never searchable. */
  lemma NoDotNeverSearchable(path: string)
    requires '.' !in path
    ensures !IsSearchableFile(path)
  {
    assert "" !in TextExtensions;
  }

  /** `os.path.join(root, name)` for a relative `name`. */
  function JoinPath(root: string, name: string): (r: string)
    ensures r == root + name || r == root + "/" + name
  {
    if root == [] || root[|root| - 1] == '/' then root + name else root + "/" + name
  }

  lemma NoExtensionHasSlash()
    ensures forall e :: e in TextExtensions ==> '/' !in e
  {
  }

  /** Classifying the joined path gives the same answer as classifying the bare name, as
      long as the name is a single path component. */
  lemma SearchableByName(root: string, name: string)
    requires '/' !in name
    ensures IsSearchableFile(JoinPath(root, name)) == IsSearchableFile(name)
  {
    var path := JoinPath(root, name);
    var off := |path| - |name|;
    assert path[off..] == name;
    if '.' in name {
      var j := LastIndexOf(name, '.').value;
      var pre := path[..off];
      assert path == pre + name;
      DotInName(pre, name, j);
    } else {
      NoDotNeverSearchable(name);
      if '.' in path {
        var k := LastIndexOf(path, '.').value;
        SlashAfterLastDot(root, name, k);
        var tail := path[k + 1..];
        var t := off - 1 - k - 1;
        assert Lower(tail)[t] == LowerChar(tail[t]) == '/';
        NoExtensionHasSlash();
      }
    }
  }

  lemma DotInName(pre: string, name: string, j: nat)
    requires LastIndexOf(name, '.') == Some(j)
    ensures Extension(pre + name) == Extension(name)
  {
    var k := |pre| + j;
    LastDotShift(pre, name, j);
    ExtensionAt(pre + name, k);
    ExtensionAt(name, j);
    assert (pre + name)[k + 1..] == name[j + 1..];
  }

  lemma ExtensionAt(path: string, k: nat)
    requires LastIndexOf(path, '.') == Some(k)
    ensures Extension(path) == Lower(path[k + 1..])
  {
  }

  lemma LastDotShift(pre: string, name: string, j: nat)
    requires LastIndexOf(name, '.') == Some(j)
    ensures LastIndexOf(pre + name, '.') == Some(|pre| + j)
  {
    var path := pre + name;
    var k := |pre| + j;
    assert path[k] == '.';
    assert path[k + 1..] == name[j + 1..];
    LastDotUnique(path, k);
  }

  /** When the name holds no dot, the last dot of the joined path lies in the root, with
      the separator after it. */
  lemma SlashAfterLastDot(root: string, name: string, k: nat)
    requires '.' !in name
    requires k < |JoinPath(root, name)| && JoinPath(root, name)[k] == '.'
    ensures k + 1 < |JoinPath(root, name)| - |name|
    ensures JoinPath(root, name)[|JoinPath(root, name)| - |name| - 1] == '/'
  {
    var path := JoinPath(root, name);
    var off := |path| - |name|;
    assert path[off..] == name;
    if root != [] && root[|root| - 1] == '/' {
      assert path[off - 1] == root[|root| - 1];
    }
  }
}
