/**
  The string and path helpers of the C++ prototype, utils.cpp, with
  `PATH_SEP` the POSIX separator of utils.h. `std::string::npos` is written
  as the length of the string (for `find_first_of`) or as -1 (for `rfind`).
*/
module CppUtils {
  import opened Wrappers
  import opened TagCodec
  import opened Sequences

  const PathSep: char := '/'

  // ---- split ----

  /** The loop `split` runs: `prev` is where the current part starts, and
      each delimiter found at `pos` closes a part when it is not empty. */
  method SplitScan(str: string, delims: set<char>) returns (parts: seq<string>)
    ensures parts == Split(str, delims)
  {
    parts := [];
    var prev := 0;
    var pos := FindFirstOf(str, delims, prev);
    while pos < |str|
      invariant prev <= pos <= |str|
      invariant pos == FindFirstOf(str, delims, prev)
      invariant parts + Split(str[prev..], delims) == Split(str, delims)
      decreases |str| - prev
    {
      SplitAtDelim(str, delims, prev, pos);
      var run := if pos > prev then [str[prev..pos]] else [];
      AppendAssoc(parts, run, Split(str[pos + 1..], delims));
      parts := parts + run;
      prev := pos + 1;
      pos := FindFirstOf(str, delims, prev);
    }
    SplitAtEnd(str, delims, prev);
    if prev < |str| {
      parts := parts + [str[prev..]];
    } else {
      assert parts + [] == parts;
    }
  }

  /** One round of the scan that finds a delimiter at `pos`: the parts of
      str[prev..] are the run before it, if not empty, then the parts after
      it. */
  lemma SplitAtDelim(s: string, D: set<char>, prev: nat, pos: nat)
    requires prev <= pos < |s| && pos == FindFirstOf(s, D, prev)
    ensures Split(s[prev..], D) == (if pos > prev then [s[prev..pos]] else []) + Split(s[pos + 1..], D)
  {
    var run := s[prev..pos];
    var rest := s[pos + 1..];
    assert s[prev..] == run + [s[pos]] + rest;
    SplitJoin(run, s[pos], rest, D);
    if pos > prev {
      assert forall k :: 0 <= k < |run| ==> run[k] == s[prev + k];
      SplitOfPlain(run, D);
    } else {
      assert run == [];
    }
  }

  /** The last round of the scan: no delimiter from `prev` on. */
  lemma SplitAtEnd(s: string, D: set<char>, prev: nat)
    requires prev <= |s| && FindFirstOf(s, D, prev) == |s|
    ensures Split(s[prev..], D) == if prev < |s| then [s[prev..]] else []
  {
    var run := s[prev..];
    if prev < |s| {
      assert forall k :: 0 <= k < |run| ==> run[k] == s[prev + k];
      SplitOfPlain(run, D);
    }
  }

  /** Every part is non-empty and holds no delimiter. */
  lemma SplitPartsArePlain(s: string, D: set<char>, p: string)
    requires p in Split(s, D)
    ensures p != "" && forall k :: 0 <= k < |p| ==> p[k] !in D
  {
    var i, j := SplitSound(s, D, p);
    assert forall k :: 0 <= k < |p| ==> p[k] == s[i + k];
  }

  /** The concatenation of a sequence of strings. */
  function Concat(parts: seq<string>): string
  {
    if parts == [] then "" else parts[0] + Concat(parts[1..])
  }

  /** `s` with every delimiter character deleted. */
  function Strip(s: string, D: set<char>): string
  {
    if s == [] then ""
    else if s[0] in D then Strip(s[1..], D)
    else [s[0]] + Strip(s[1..], D)
  }

  lemma {:induction false} StripAppend(a: string, b: string, D: set<char>)
    ensures Strip(a + b, D) == Strip(a, D) + Strip(b, D)
    decreases |a|
  {
    if a != [] {
      assert (a + b)[1..] == a[1..] + b;
      StripAppend(a[1..], b, D);
    } else {
      assert a + b == b;
    }
  }

  lemma {:induction false} StripPlain(a: string, D: set<char>)
    requires forall k :: 0 <= k < |a| ==> a[k] !in D
    ensures Strip(a, D) == a
    decreases |a|
  {
    if a != [] {
      StripPlain(a[1..], D);
      assert [a[0]] + a[1..] == a;
    }
  }

  /** Joining the parts gives back the string with its delimiters deleted,
      in order. */
  lemma {:induction false} ConcatSplit(s: string, D: set<char>)
    ensures Concat(Split(s, D)) == Strip(s, D)
    decreases |s|
  {
    if s == [] {
    } else if s[0] in D {
      ConcatSplit(s[1..], D);
    } else {
      var n := FindFirstOf(s, D, 0);
      ConcatSplit(s[n..], D);
      var parts := Split(s, D);
      assert parts[0] == s[..n] && parts[1..] == Split(s[n..], D);
      assert s == s[..n] + s[n..];
      StripAppend(s[..n], s[n..], D);
      StripPlain(s[..n], D);
    }
  }

  // ---- path_join ----

  function DropLastSep(a: string): string
  {
    if a != "" && a[|a| - 1] == PathSep then a[..|a| - 1] else a
  }

  function DropFirstSep(b: string): string
  {
    if b != "" && b[0] == PathSep then b[1..] else b
  }

  /** What `path_join` computes; `None` where `back()` or `front()` would be
      called on an empty string. With both sides non-empty, the two sides
      meet at exactly one separator. */
  function Junction(a: string, b: string): (r: Option<string>)
    ensures r.None? <==> a == "" || b == ""
    ensures r.Some? ==> r.value == DropLastSep(a) + [PathSep] + DropFirstSep(b)
  {
    if a == "" || b == "" then None
    else
      var endsSep := a[|a| - 1] == PathSep;
      var startsSep := b[0] == PathSep;
      if endsSep && startsSep then
        assert a == a[..|a| - 1] + [PathSep];
        Some(a[..|a| - 1] + b)
      else if !endsSep && !startsSep then Some(a + [PathSep] + b)
      else if endsSep then
        assert a == a[..|a| - 1] + [PathSep];
        Some(a + b)
      else
        assert b == [PathSep] + b[1..];
        Some(a + b)
  }

  /** `path_join`, on a copy of `a_str`. */
  method PathJoin(aStr: string, bStr: string) returns (r: Option<string>)
    ensures r == Junction(aStr, bStr)
  {
    if aStr == "" || bStr == "" {
      return None;
    }
    var a := aStr;
    var endsSep := a[|a| - 1] == PathSep;
    var startsSep := bStr[0] == PathSep;
    if endsSep && startsSep {
      a := a[..|a| - 1];
    } else if !endsSep && !startsSep {
      a := a + [PathSep];
    }
    r := Some(a + bStr);
  }

  // ---- get_path_parts / join_path_parts ----

  /** The `Path_Parts` record. */
  datatype PathParts = PathParts(dirs: string, name: string, ext: string)

  /** `std::string::rfind` of one character, -1 for `npos`. */
  function RFind(s: string, c: char): (r: int)
    ensures -1 <= r < |s|
    ensures r >= 0 ==> s[r] == c
    ensures forall k :: r < k < |s| ==> s[k] != c
    decreases |s|
  {
    if s == [] then -1
    else if s[|s| - 1] == c then |s| - 1
    else RFind(s[..|s| - 1], c)
  }

  /** The directories up to and including the last separator, and the rest. */
  function SplitDirs(path: string): (r: (string, string))
    ensures r.0 + r.1 == path
    ensures r.0 == "" || r.0[|r.0| - 1] == PathSep
  {
    var lastDir := RFind(path, PathSep);
    if lastDir < 0 then ("", path)
    else (path[..lastDir + 1], path[lastDir + 1..])
  }

  /** The directory part is empty exactly when there is no separator, and
      the rest has none. */
  lemma SplitDirsSep(path: string)
    ensures var r := SplitDirs(path);
      && (r.0 == "" <==> PathSep !in path)
      && PathSep !in r.1
  {
    var lastDir := RFind(path, PathSep);
    if lastDir >= 0 {
      var rest := path[lastDir + 1..];
      assert forall k :: 0 <= k < |rest| ==> rest[k] == path[lastDir + 1 + k];
      assert path[lastDir] in path;
    }
  }

  /** The name up to the last dot, and the extension from the dot on. */
  function SplitExt(file: string): (r: (string, string))
    ensures r.0 + r.1 == file
  {
    var extPos := RFind(file, '.');
    if extPos < 0 then (file, "")
    else (file[..extPos], file[extPos..])
  }

  /** The extension is empty exactly when there is no dot, and otherwise
      starts at the last one. */
  lemma SplitExtDot(file: string)
    ensures var r := SplitExt(file);
      && (r.1 == "" <==> '.' !in file)
      && (r.1 == "" || (r.1[0] == '.' && '.' !in r.1[1..]))
  {
    var extPos := RFind(file, '.');
    if extPos >= 0 {
      var ext := file[extPos..];
      assert forall k :: 0 <= k < |ext| ==> ext[k] == file[extPos + k];
    }
  }

  /** The split `get_path_parts` computes: the directories up to and
      including the last separator, then the name, then the extension from
      the last dot of the name on. Nothing is lost or added. */
  function PartsOf(path: string): (p: PathParts)
    ensures p.dirs + p.name + p.ext == path
  {
    var d := SplitDirs(path);
    var e := SplitExt(d.1);
    AppendAssoc(d.0, e.0, e.1);
    PathParts(d.0, e.0, e.1)
  }

  /** The directory part is empty exactly when the path has no separator,
      and otherwise ends with the last one. */
  lemma PartsOfDirs(path: string)
    ensures var p := PartsOf(path);
      && (p.dirs == "" <==> PathSep !in path)
      && (p.dirs == "" || p.dirs[|p.dirs| - 1] == PathSep)
      && PathSep !in p.name + p.ext
  {
    var d := SplitDirs(path);
    SplitDirsSep(path);
    assert PartsOf(path).name + PartsOf(path).ext == d.1;
  }

  /** The extension is empty exactly when the file name has no dot, and
      otherwise starts at its last dot. */
  lemma PartsOfExt(path: string)
    ensures var p := PartsOf(path);
      && (p.ext == "" <==> '.' !in p.name + p.ext)
      && (p.ext == "" || (p.ext[0] == '.' && '.' !in p.ext[1..]))
  {
    var d := SplitDirs(path);
    SplitExtDot(d.1);
    assert PartsOf(path).name + PartsOf(path).ext == d.1;
  }

  /** `get_path_parts`, reassigning the fields of the record. */
  method GetPathParts(path: string) returns (p: PathParts)
    ensures p == PartsOf(path)
  {
    p := PathParts("", path, "");
    var lastDir := RFind(p.name, PathSep);
    if lastDir != -1 {
      lastDir := lastDir + 1;
      p := p.(dirs := p.name[..lastDir]);
      p := p.(name := p.name[lastDir..]);
    }
    var extPos := RFind(p.name, '.');
    if extPos != -1 {
      p := p.(ext := p.name[extPos..]);
      p := p.(name := p.name[..extPos]);
    }
  }

  /** `join_path_parts`. */
  function JoinPathParts(p: PathParts): Option<string>
  {
    Junction(p.dirs, p.name + p.ext)
  }

  /** Splitting a path that has a separator and does not end with one, then
      joining it again, gives the path back. */
  lemma JoinSplitPath(path: string)
    requires PathSep in path && path[|path| - 1] != PathSep
    ensures JoinPathParts(PartsOf(path)) == Some(path)
  {
    DirsEndWithSep(path);
    FileNameOfPath(path);
    JoinParts(PartsOf(path), path);
  }

  /** A path with a separator has a directory part ending with one. */
  lemma DirsEndWithSep(path: string)
    requires PathSep in path
    ensures var p := PartsOf(path); p.dirs != "" && p.dirs[|p.dirs| - 1] == PathSep
  {
    var i :| 0 <= i < |path| && path[i] == PathSep;
    assert RFind(path, PathSep) >= i;
  }

  /** Parts that meet at a single separator are joined back into the whole. */
  lemma JoinParts(p: PathParts, path: string)
    requires p.dirs + p.name + p.ext == path
    requires p.dirs != "" && p.dirs[|p.dirs| - 1] == PathSep
    requires p.name + p.ext != "" && (p.name + p.ext)[0] != PathSep
    ensures JoinPathParts(p) == Some(path)
  {
    JoinAfterSep(p.dirs, p.name + p.ext);
    AppendAssoc(p.dirs, p.name, p.ext);
  }

  /** The file part of a path that does not end with the separator is
      non-empty and does not start with one. */
  lemma FileNameOfPath(path: string)
    requires path != [] && path[|path| - 1] != PathSep
    ensures var p := PartsOf(path);
      p.name + p.ext != "" && (p.name + p.ext)[0] != PathSep
  {
    var d := SplitDirs(path);
    var file := d.1;
    assert PartsOf(path).name + PartsOf(path).ext == file;
    assert file != "" by {
      assert path[|path| - 1] == (d.0 + d.1)[|path| - 1];
    }
    assert file[0] in file;
  }

  /** A directory part ending with the separator and a file name not
      starting with one are joined as they are. */
  lemma JoinAfterSep(a: string, b: string)
    requires a != "" && a[|a| - 1] == PathSep
    requires b != "" && b[0] != PathSep
    ensures Junction(a, b) == Some(a + b)
  {
    assert a[..|a| - 1] + [PathSep] == a;
  }

  /** Without a separator there is no directory part to join to, and
      `join_path_parts` is undefined. */
  lemma JoinWithoutSeparator(path: string)
    requires PathSep !in path
    ensures JoinPathParts(PartsOf(path)) == None
  {
    PartsOfDirs(path);
  }
}
