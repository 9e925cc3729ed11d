/** The string and path helpers `AddStrongName` relies on, for Windows paths (it
    is marked as Windows-only), as the .NET Framework implements them:
    `Path.GetFileName`, `Path.Combine`, `String.Contains` and `String.EndsWith`
    ignoring case. */
module Paths {

  /** Windows accepts both slashes as directory separators. */
  predicate IsSeparator(c: char) {
    c == '/' || c == '\\'
  }

  /** Where `Path.GetFileName` cuts a path: a directory separator or the
      volume separator `:`. */
  predicate EndsRoot(c: char) {
    IsSeparator(c) || c == ':'
  }

  /** `s` holds no character `Path.GetFileName` would cut at. */
  predicate NoSeparator(s: string) {
    forall i :: 0 <= i < |s| ==> !EndsRoot(s[i])
  }

  /** `Path.GetFileName` (and `FileInfo.Name`): the part after the last
      separator or `:`, or the whole path when it has neither. */
  function FileName(path: string): (name: string)
    ensures |name| <= |path| && name == path[|path| - |name|..]
    ensures NoSeparator(name)
    ensures |name| < |path| ==> EndsRoot(path[|path| - |name| - 1])
  {
    if path == [] || EndsRoot(path[|path| - 1]) then []
    else FileName(path[..|path| - 1]) + [path[|path| - 1]]
  }

  /** `Path.IsPathRooted`: the path starts with a separator or a drive. */
  predicate IsRooted(path: string) {
    (|path| >= 1 && IsSeparator(path[0])) || (|path| >= 2 && path[1] == ':')
  }

  /** `Path.Combine(folder, name)` (.NET Framework). */
  function Combine(folder: string, name: string): string {
    if name == [] then folder
    else if folder == [] then name
    else if IsRooted(name) then name
    else if EndsRoot(folder[|folder| - 1]) then folder + name
    else folder + "\\" + name
  }

  /** What `Path.Combine` gives: an empty part yields the other one, a rooted
      name replaces the folder, and a backslash is put between the two unless
      the folder already ends with a separator or `:`. */
  lemma CombineCases(folder: string, name: string)
    ensures name == [] ==> Combine(folder, name) == folder
    ensures name != [] && (folder == [] || IsRooted(name)) ==> Combine(folder, name) == name
    ensures name != [] && folder != [] && !IsRooted(name) && EndsRoot(folder[|folder| - 1]) ==>
      Combine(folder, name) == folder + name
    ensures name != [] && folder != [] && !IsRooted(name) && !EndsRoot(folder[|folder| - 1]) ==>
      Combine(folder, name) == folder + "\\" + name
  {
  }

  lemma {:induction false} FileNameAfterSeparator(dir: string, name: string)
    requires dir == [] || EndsRoot(dir[|dir| - 1])
    requires NoSeparator(name)
    ensures FileName(dir + name) == name
  {
    if name == [] {
      assert dir + name == dir;
    } else {
      var path := dir + name;
      var init := name[..|name| - 1];
      assert path[..|path| - 1] == dir + init;
      assert path[|path| - 1] == name[|name| - 1];
      FileNameAfterSeparator(dir, init);
      assert FileName(path) == FileName(dir + init) + [name[|name| - 1]];
      assert init + [name[|name| - 1]] == name;
    }
  }

  /** A file name combined into a folder is again the file name of the
      result: the signed copy of `x\y\Lib.dll` is called `Lib.dll` too. */
  lemma CombineKeepsFileName(folder: string, name: string)
    requires name != [] && NoSeparator(name)
    ensures FileName(Combine(folder, name)) == name
  {
    assert !IsRooted(name);
    if folder == [] {
      FileNameAfterSeparator([], name);
      assert [] + name == name;
    } else if EndsRoot(folder[|folder| - 1]) {
      FileNameAfterSeparator(folder, name);
    } else {
      FileNameAfterSeparator(folder + "\\", name);
      assert folder + "\\" + name == (folder + "\\") + name;
    }
  }

  /** Concatenating lists of paths associates. */
  lemma AppendAssociates(a: seq<string>, b: seq<string>, c: seq<string>)
    ensures a + (b + c) == (a + b) + c
  {
  }

  /** `String.StartsWith` with ordinal comparison. */
  predicate StartsWith(s: string, prefix: string) {
    |prefix| <= |s| && s[..|prefix|] == prefix
  }

  /** `needle` occurs in `s` at position `i`. */
  predicate OccursAt(s: string, needle: string, i: int) {
    0 <= i && i + |needle| <= |s| && s[i..i + |needle|] == needle
  }

  /** `String.Contains` with ordinal comparison. */
  predicate Contains(s: string, needle: string)
    decreases |s|
  {
    StartsWith(s, needle) || (s != [] && Contains(s[1..], needle))
  }

  /** `Contains` holds exactly when the needle occurs somewhere in `s`. */
  lemma {:induction false} ContainsIffOccurs(s: string, needle: string)
    ensures Contains(s, needle) <==> exists i :: OccursAt(s, needle, i)
    decreases |s|
  {
    if StartsWith(s, needle) {
      assert OccursAt(s, needle, 0);
    }
    if s != [] {
      ContainsIffOccurs(s[1..], needle);
      if Contains(s[1..], needle) {
        var i :| OccursAt(s[1..], needle, i);
        assert s[i + 1..i + 1 + |needle|] == s[1..][i..i + |needle|];
        assert OccursAt(s, needle, i + 1);
      }
    }
    if exists i :: OccursAt(s, needle, i) {
      var i :| OccursAt(s, needle, i);
      if i > 0 {
        assert s[1..][i - 1..i - 1 + |needle|] == s[i..i + |needle|];
        assert OccursAt(s[1..], needle, i - 1);
      } else {
        assert StartsWith(s, needle);
      }
    }
  }

  /** The case mapping used when comparing file names: ASCII letters only. */
  function ToLowerAscii(c: char): char {
    if 'A' <= c <= 'Z' then (c as int + 32) as char else c
  }

  function FoldCase(s: string): (r: string)
    ensures |r| == |s|
  {
    seq(|s|, i requires 0 <= i < |s| => ToLowerAscii(s[i]))
  }

  /** `String.EndsWith(suffix, StringComparison.CurrentCultureIgnoreCase)`,
      with ASCII case folding in place of the culture's rules. */
  predicate EndsWithIgnoreCase(s: string, suffix: string) {
    |suffix| <= |s| && FoldCase(s[|s| - |suffix|..]) == FoldCase(suffix)
  }

  /** Folding maps no other character to a separator or `:`, and leaves
      those unchanged. */
  lemma FoldKeepsBoundaries(c: char)
    ensures EndsRoot(ToLowerAscii(c)) <==> EndsRoot(c)
    ensures EndsRoot(c) ==> ToLowerAscii(c) == c
  {
  }

  lemma FoldCaseOfCons(c: char, s: string)
    ensures FoldCase([c] + s) == [ToLowerAscii(c)] + FoldCase(s)
  {
  }

  /** Two names that fold alike are matched by the same suffixes. */
  lemma EndsWithSameFold(s: string, c: char, a: string, b: string)
    requires FoldCase(a) == FoldCase(b)
    ensures EndsWithIgnoreCase(s, [c] + a) <==> EndsWithIgnoreCase(s, [c] + b)
  {
    FoldCaseOfCons(c, a);
    FoldCaseOfCons(c, b);
  }

  /** A path that ends, ignoring case, with a separator and a file name has,
      ignoring case, that file name. */
  lemma EndsWithFileName(s: string, sep: char, name: string)
    requires IsSeparator(sep) && NoSeparator(name)
    requires EndsWithIgnoreCase(s, [sep] + name)
    ensures FoldCase(FileName(s)) == FoldCase(name)
  {
    var m := |name|;
    var tail := s[|s| - m - 1..];
    var dir, file := s[..|s| - m], s[|s| - m..];
    FoldCaseOfCons(sep, name);
    assert FoldCase(tail) == [ToLowerAscii(sep)] + FoldCase(name);
    assert FoldCase(tail)[0] == ToLowerAscii(tail[0]);
    FoldKeepsBoundaries(sep);
    FoldKeepsBoundaries(tail[0]);
    assert dir[|dir| - 1] == tail[0];
    forall i | 0 <= i < m ensures !EndsRoot(file[i]) && ToLowerAscii(file[i]) == ToLowerAscii(name[i]) {
      assert file[i] == tail[i + 1];
      assert FoldCase(tail)[i + 1] == FoldCase(name)[i];
      FoldKeepsBoundaries(name[i]);
      FoldKeepsBoundaries(file[i]);
    }
    assert s == dir + file;
    FileNameAfterSeparator(dir, file);
  }
}
