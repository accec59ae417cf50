/** String operations behind `UploadService.allowed` and the `folder / filename`
    path join: Python's `str.rsplit(sep, 1)`, `str.lower()` and the extension
    allow-list check, with what they guarantee. */
module FileNames {
  import opened Base

  /** Index of the last occurrence of `c` in `s`, or None when `c` does not occur. */
  function LastIndex(s: string, c: char): (r: Option<nat>)
    ensures r.None? <==> c !in s
    ensures r.Some? ==> r.value < |s| && s[r.value] == c && c !in s[r.value + 1..]
  {
    if |s| == 0 then None
    else if s[|s| - 1] == c then Some(|s| - 1)
    else
      var r := LastIndex(s[..|s| - 1], c);
      assert s == s[..|s| - 1] + [s[|s| - 1]];
      assert r.Some? ==> s[r.value + 1..] == s[..|s| - 1][r.value + 1..] + [s[|s| - 1]];
      r
  }

  /** No `c` in the suffix after index `i` means no `c` at any later index. */
  lemma AfterLastAbsent(s: string, c: char, i: nat)
    requires i < |s| && c !in s[i + 1..]
    ensures forall k :: i < k < |s| ==> s[k] != c
  {
    forall k | i < k < |s| ensures s[k] != c {
      assert s[k] == s[i + 1..][k - i - 1];
    }
  }

  /** An occurrence of `c` with no `c` after it is the last one. */
  lemma LastIndexUnique(s: string, c: char, i: nat)
    requires i < |s| && s[i] == c && c !in s[i + 1..]
    ensures LastIndex(s, c) == Some(i)
  {
    assert c in s by { assert s[i] == c; }
    var j := LastIndex(s, c).value;
    AfterLastAbsent(s, c, i);
    AfterLastAbsent(s, c, j);
  }

  /** Python's `s.rsplit(c, 1)`: the whole string when `c` does not occur,
      otherwise the text before and after the last `c`. */
  function RSplitOnce(s: string, c: char): (parts: seq<string>)
    ensures c !in s ==> parts == [s]
    ensures c in s ==> |parts| == 2 && parts[0] + [c] + parts[1] == s && c !in parts[1]
  {
    match LastIndex(s, c)
    case None => [s]
    case Some(i) =>
      assert s == s[..i] + [c] + s[i + 1..];
      [s[..i], s[i + 1..]]
  }

  /** Python's `str.lower()` on one character, restricted to ASCII letters. */
  function LowerChar(ch: char): char
  {
    if 'A' <= ch <= 'Z' then (ch as int - 'A' as int + 'a' as int) as char else ch
  }

  /** Python's `str.lower()`, character by character. */
  function Lower(s: string): (r: string)
    ensures |r| == |s|
    ensures forall i :: 0 <= i < |s| ==> r[i] == LowerChar(s[i])
  {
    if s == [] then [] else [LowerChar(s[0])] + Lower(s[1..])
  }

  /** Lower-casing twice is lower-casing once. */
  lemma LowerIdempotent(s: string)
    ensures Lower(Lower(s)) == Lower(s)
  {
    var once := Lower(s);
    assert forall i :: 0 <= i < |s| ==> LowerChar(once[i]) == once[i];
  }

  /** Lower-casing commutes with taking a suffix. */
  lemma LowerSuffix(s: string, k: nat)
    requires k <= |s|
    ensures Lower(s[k..]) == Lower(s)[k..]
  {
  }

  /** Lower-casing moves no dot: the last dot sits at the same index. */
  lemma {:induction false} LastDotOfLower(s: string)
    ensures LastIndex(Lower(s), '.') == LastIndex(s, '.')
  {
    if |s| > 0 {
      var front := s[..|s| - 1];
      LastDotOfLower(front);
      assert Lower(s)[..|s| - 1] == Lower(front);
    }
  }

  /** `UploadService.allowed`: the name holds a dot, and the text after the
      last dot, lower-cased, is one of the allowed extensions (`AllowedIff`
      states this without `rsplit`, in both directions). */
  function Allowed(filename: string, allowedExts: set<string>): (ok: bool)
    ensures '.' !in filename ==> !ok
  {
    '.' in filename && Lower(RSplitOnce(filename, '.')[1]) in allowedExts
  }

  /** A name without a dot, the empty name in particular, is never allowed. */
  lemma NoDotNotAllowed(filename: string, allowedExts: set<string>)
    requires '.' !in filename
    ensures !Allowed(filename, allowedExts)
  {
  }

  /** Allowed means exactly: some dot is the last one and the text after it,
      lower-cased, is allowed. */
  lemma AllowedIff(filename: string, allowedExts: set<string>)
    ensures Allowed(filename, allowedExts) <==>
      exists i :: 0 <= i < |filename| && filename[i] == '.' && '.' !in filename[i + 1..]
                  && Lower(filename[i + 1..]) in allowedExts
  {
    if Allowed(filename, allowedExts) {
      var i := LastIndex(filename, '.').value;
      assert filename[i] == '.' && '.' !in filename[i + 1..] && Lower(filename[i + 1..]) in allowedExts;
    }
    if exists i :: 0 <= i < |filename| && filename[i] == '.' && '.' !in filename[i + 1..]
                   && Lower(filename[i + 1..]) in allowedExts {
      var i :| 0 <= i < |filename| && filename[i] == '.' && '.' !in filename[i + 1..]
               && Lower(filename[i + 1..]) in allowedExts;
      LastIndexUnique(filename, '.', i);
    }
  }

  /** Only the last extension counts, whatever the stem holds. */
  lemma AllowedByLastExtension(stem: string, ext: string, allowedExts: set<string>)
    requires '.' !in ext
    ensures Allowed(stem + "." + ext, allowedExts) <==> Lower(ext) in allowedExts
  {
    var name := stem + "." + ext;
    assert name[|stem| + 1..] == ext;
    LastIndexUnique(name, '.', |stem|);
  }

  /** The case of the whole name does not matter. */
  lemma AllowedIgnoresCase(filename: string, allowedExts: set<string>)
    ensures Allowed(Lower(filename), allowedExts) <==> Allowed(filename, allowedExts)
  {
    LastDotOfLower(filename);
    match LastIndex(filename, '.')
    case None =>
    case Some(i) =>
      LowerSuffix(filename, i + 1);
      LowerIdempotent(filename[i + 1..]);
  }

  /** The entries of an allow-set that are already lower-case. */
  function LowerCaseEntries(allowedExts: set<string>): (live: set<string>)
    ensures live <= allowedExts
    ensures forall e :: e in live ==> Lower(e) == e
  {
    set e | e in allowedExts && Lower(e) == e
  }

  /** Only lower-case entries of the allow-set can ever match: an entry with
      an upper-case letter is dead. */
  lemma AllowedUsesLowerEntries(filename: string, allowedExts: set<string>)
    ensures Allowed(filename, allowedExts) <==> Allowed(filename, LowerCaseEntries(allowedExts))
  {
    if '.' in filename {
      var ext := RSplitOnce(filename, '.')[1];
      LowerIdempotent(ext);
    }
  }

  /** With the empty extension not allowed, an allowed name does not end in a
      dot; in particular it is neither "." nor "..". */
  lemma AllowedNameNotDotSegment(filename: string, allowedExts: set<string>)
    requires "" !in allowedExts
    requires Allowed(filename, allowedExts)
    ensures |filename| > 0 && filename[|filename| - 1] != '.'
    ensures filename != "." && filename != ".."
  {
    var i := LastIndex(filename, '.').value;
    var ext := filename[i + 1..];
    assert RSplitOnce(filename, '.')[1] == ext;
    assert Lower(ext) != "";
    assert filename[|filename| - 1] == ext[|ext| - 1] != '.';
    assert ".."[1] == '.' && "."[0] == '.';
  }

  /** "data.CSV" is accepted by {"csv"}. */
  lemma UpperCaseExtensionAccepted()
    ensures Allowed("data.CSV", {"csv"})
  {
    var stem, ext := "data", "CSV";
    assert LowerChar('C') == 'c' && LowerChar('S') == 's' && LowerChar('V') == 'v';
    assert Lower(ext) == "csv";
    AllowedByLastExtension(stem, ext, {"csv"});
    assert Allowed(stem + "." + ext, {"csv"});
    assert stem + "." + ext == "data.CSV";
  }

  /** "a.csv.txt" is rejected by {"csv"}: only the last extension counts. */
  lemma DoubleExtensionRejected()
    ensures !Allowed("a.csv.txt", {"csv"})
  {
    var stem, ext := "a.csv", "txt";
    assert stem + "." + ext == "a.csv.txt";
    AllowedByLastExtension(stem, ext, {"csv"});
    assert Lower(ext)[0] == LowerChar('t') == 't';
    assert Lower(ext) !in {"csv"};
  }

  /** `pathlib`'s `folder / name`, as the string `str(path)` gives. A name
      without a separator stays a single entry directly inside the folder:
      splitting the path at its last separator gives back the folder and the name. */
  function Join(folder: string, name: string): (path: string)
    ensures |path| == |folder| + 1 + |name|
    ensures '/' !in name ==> RSplitOnce(path, '/') == [folder, name]
  {
    var path := folder + "/" + name;
    assert path[|folder|] == '/';
    assert path[|folder| + 1..] == name;
    assert path[..|folder|] == folder;
    if '/' in name then path
    else
      LastIndexUnique(path, '/', |folder|);
      path
  }
}
