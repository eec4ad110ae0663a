/**
 * The driver in `main` (src/main.rs): split the dotted argument into a path,
 * then report every file one of whose embedded snippets parses and contains
 * the path. The walker and file reading are replaced by a given sequence of
 * (path, content) entries; the parser is the parameter `parse`.
 */
module Search {
  import opened Options
  import opened Ast
  import opened Extractor
  import opened PathMatcher

  /** `str::split(sep)`: the pieces between separators, never an empty list. */
  function Split(s: string, sep: char): (parts: seq<string>)
    ensures |parts| >= 1
    ensures forall i :: 0 <= i < |parts| ==> sep !in parts[i]
    decreases |s|
  {
    if s == [] then [[]]
    else
      var rest := Split(s[1..], sep);
      if s[0] == sep then
        [[]] + rest
      else
        var parts := [[s[0]] + rest[0]] + rest[1..];
        assert forall i :: 1 <= i < |parts| ==> parts[i] == rest[i];
        parts
  }

  /** The pieces glued back together with `sep` between them. */
  function Join(parts: seq<string>, sep: char): string
    requires |parts| >= 1
    decreases |parts|
  {
    if |parts| == 1 then parts[0] else parts[0] + [sep] + Join(parts[1..], sep)
  }

  /** Splitting loses nothing: joining the pieces gives back the argument. */
  lemma {:induction false} JoinSplit(s: string, sep: char)
    ensures Join(Split(s, sep), sep) == s
    decreases |s|
  {
    if s != [] {
      var rest := Split(s[1..], sep);
      JoinSplit(s[1..], sep);
      if s[0] == sep {
        assert ([[]] + rest)[1..] == rest;
      } else {
        var parts := [[s[0]] + rest[0]] + rest[1..];
        if |rest| > 1 {
          assert parts[1..] == rest[1..];
        }
      }
    }
  }

  lemma {:induction false} SplitNoSeparator(p: string, sep: char)
    requires sep !in p
    ensures Split(p, sep) == [p]
    decreases |p|
  {
    if p != [] {
      SplitNoSeparator(p[1..], sep);
      assert [p[0]] + p[1..] == p;
    }
  }

  lemma {:induction false} SplitAtSeparator(p: string, t: string, sep: char)
    requires sep !in p
    ensures Split(p + [sep] + t, sep) == [p] + Split(t, sep)
    decreases |p|
  {
    if p == [] {
      assert (p + [sep] + t)[1..] == t;
    } else {
      var s := p + [sep] + t;
      assert s[1..] == p[1..] + [sep] + t;
      SplitAtSeparator(p[1..], t, sep);
      assert [p[0]] + p[1..] == p;
    }
  }

  /** Pieces free of the separator are recovered exactly by splitting their join. */
  lemma {:induction false} SplitJoin(parts: seq<string>, sep: char)
    requires |parts| >= 1
    requires forall i :: 0 <= i < |parts| ==> sep !in parts[i]
    ensures Split(Join(parts, sep), sep) == parts
    decreases |parts|
  {
    if |parts| == 1 {
      SplitNoSeparator(parts[0], sep);
    } else {
      SplitJoin(parts[1..], sep);
      SplitAtSeparator(parts[0], Join(parts[1..], sep), sep);
      assert [parts[0]] + parts[1..] == parts;
    }
  }

  /** One entry produced by the directory walk: a file path and its text. */
  datatype FileEntry = FileEntry(path: string, content: string)

  /** Some snippet extracted from the file parses and contains the path. */
  predicate FileMatches(content: string, path: seq<string>, parse: string -> Option<Document>)
    requires |path| > 0
  {
    exists q :: q in ExtractGraphqlQueries(content) && SnippetMatches(q, path, parse)
  }

  /** The verdict of the search on one entry: does the file have a matching snippet? */
  function Keep(path: seq<string>, parse: string -> Option<Document>): FileEntry -> bool
    requires |path| > 0
  {
    (e: FileEntry) => FileMatches(e.content, path, parse)
  }

  /** The paths of the entries that `keep` accepts, in input order. */
  function Reported(files: seq<FileEntry>, keep: FileEntry -> bool): (r: seq<string>)
    ensures |r| <= |files|
    decreases files
  {
    if files == [] then []
    else (if keep(files[0]) then [files[0].path] else []) + Reported(files[1..], keep)
  }

  /** The report for two runs of files is the report for the first followed by that of the second:
      results keep the input order and a prefix of the input gives a prefix of the report. */
  lemma {:induction false} ReportedAppend(a: seq<FileEntry>, b: seq<FileEntry>, keep: FileEntry -> bool)
    ensures Reported(a + b, keep) == Reported(a, keep) + Reported(b, keep)
    decreases a
  {
    if a == [] {
      assert a + b == b;
    } else {
      var ab := a + b;
      assert ab[0] == a[0] && ab[1..] == a[1..] + b;
      ReportedAppend(a[1..], b, keep);
      var head := if keep(a[0]) then [a[0].path] else [];
      assert Reported(ab, keep) == head + Reported(a[1..] + b, keep);
      assert Reported(a, keep) == head + Reported(a[1..], keep);
    }
  }

  /** A path is reported exactly when some entry with that path is accepted. */
  lemma {:induction false} ReportedMembership(files: seq<FileEntry>, keep: FileEntry -> bool, p: string)
    ensures p in Reported(files, keep) <==> exists i :: 0 <= i < |files| && files[i].path == p && keep(files[i])
    decreases files
  {
    if files != [] {
      ReportedMembership(files[1..], keep, p);
      if exists i :: 0 <= i < |files| && files[i].path == p && keep(files[i]) {
        var i :| 0 <= i < |files| && files[i].path == p && keep(files[i]);
        if i > 0 {
          assert files[1..][i - 1] == files[i];
        }
      }
      if p in Reported(files[1..], keep) {
        var i :| 0 <= i < |files[1..]| && files[1..][i].path == p && keep(files[1..][i]);
        assert files[i + 1] == files[1..][i];
      }
    }
  }

  /** When the walker yields each file once, each file is reported at most once. */
  lemma {:induction false} ReportedDistinct(files: seq<FileEntry>, keep: FileEntry -> bool)
    requires forall i, j :: 0 <= i < j < |files| ==> files[i].path != files[j].path
    ensures var r := Reported(files, keep); forall i, j :: 0 <= i < j < |r| ==> r[i] != r[j]
    decreases files
  {
    if files != [] {
      var rest := Reported(files[1..], keep);
      ReportedDistinct(files[1..], keep);
      ReportedMembership(files[1..], keep, files[0].path);
      forall i | 0 <= i < |files[1..]| ensures files[1..][i].path != files[0].path {
        assert files[1..][i] == files[i + 1];
      }
      assert files[0].path !in rest;
      var head := if keep(files[0]) then [files[0].path] else [];
      var r := head + rest;
      forall i, j | 0 <= i < j < |r| ensures r[i] != r[j] {
        if i < |head| {
          assert r[j] == rest[j - 1] && r[j] in rest;
        } else {
          assert r[i] == rest[i - |head|] && r[j] == rest[j - |head|];
        }
      }
    }
  }

  /** The inner loop of `main`: scan the file's snippets in order and stop at the first one
      whose query contains the path. */
  method FileHasMatch(content: string, path: seq<string>, parse: string -> Option<Document>)
    returns (found: bool)
    requires |path| > 0
    ensures found == FileMatches(content, path, parse)
  {
    var queries := ExtractGraphqlQueries(content);
    found := false;
    for k := 0 to |queries|
      invariant !found
      invariant forall j :: 0 <= j < k ==> !SnippetMatches(queries[j], path, parse)
    {
      found := QueryContainsPath(queries[k], path, parse);
      if found {
        assert queries[k] in queries;
        break;
      }
    }
  }

  /** The loop of `main`, without I/O: split the argument on '.', then record the path of every
      entry that has a matching snippet. */
  method FindMatchingFiles(files: seq<FileEntry>, argument: string, parse: string -> Option<Document>)
    returns (matchingFiles: seq<string>)
    ensures matchingFiles == Reported(files, Keep(Split(argument, '.'), parse))
  {
    var pathToSearch := Split(argument, '.');
    ghost var keep := Keep(pathToSearch, parse);
    matchingFiles := [];
    for i := 0 to |files|
      invariant matchingFiles == Reported(files[..i], keep)
    {
      var entry := files[i];
      ReportedAppend(files[..i], [entry], keep);
      assert files[..i + 1] == files[..i] + [entry];
      var found := FileHasMatch(entry.content, pathToSearch, parse);
      assert keep(entry) == found;
      assert Reported([entry], keep) == (if found then [entry.path] else []);
      if found {
        matchingFiles := matchingFiles + [entry.path];
      }
    }
    assert files[..|files|] == files;
  }
}
