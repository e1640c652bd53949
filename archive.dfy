/** `_create_zip_from_directory`: the archive of a target holds every regular file below the target's
    root, under its relative path, that matches none of the exclude patterns (backup.py:129-150). The
    zip container and its compression are not modelled; an archive is the map from relative path to
    the bytes stored under it. */
module Archiver {
  import opened Base
  import opened Text
  import opened Glob
  import opened Exclusion
  import opened FileSystem

  /** The relative paths an archive receives. */
  function Archived(root: Node, patterns: seq<string>): set<string>
  {
    set p | p in RelPaths(root) && !Excluded(p, patterns)
  }

  /** The archive itself: each archived path with the bytes of its file. */
  function Archive(root: Node, patterns: seq<string>): map<string, seq<byte>>
  {
    map p | p in Archived(root, patterns) :: ContentAt(root, p)
  }

  /** The archive holds the archived paths and no others. */
  lemma ArchiveKeys(root: Node, patterns: seq<string>)
    ensures Archive(root, patterns).Keys == Archived(root, patterns)
  {
  }

  /** The walk-and-filter loop: every file visited is matched against the patterns, and written when
      none matches. The walk order is not modelled. */
  method CreateZipFromDirectory(root: Node, toExclude: Option<string>) returns (archive: map<string, seq<byte>>)
    ensures archive == Archive(root, ExcludePatterns(toExclude))
  {
    var patterns := ProcessExcludeText(toExclude);
    archive := WriteFiles(root, patterns);
  }

  method WriteFiles(root: Node, patterns: seq<string>) returns (archive: map<string, seq<byte>>)
    ensures archive == Archive(root, patterns)
  {
    archive := WritePaths(root, RelPaths(root), patterns);
  }

  /** The loop over the walked paths: each one is matched against the patterns and written unless excluded. */
  method WritePaths(root: Node, paths: set<string>, patterns: seq<string>) returns (archive: map<string, seq<byte>>)
    ensures archive == Written(root, paths, patterns)
  {
    var todo := paths;
    ghost var done: set<string> := {};
    archive := map[];
    while todo != {}
      invariant todo + done == paths && todo * done == {}
      invariant archive == Written(root, done, patterns)
      decreases |todo|
    {
      var p :| p in todo;
      var excluded := IsExcluded(p, patterns);
      WrittenAdd(root, done, p, patterns);
      if !excluded {
        archive := archive[p := ContentAt(root, p)];
      }
      todo := todo - {p};
      done := done + {p};
    }
    assert done == paths;
  }

  /** What the loop has written once it has visited the paths `done`. */
  function Written(root: Node, done: set<string>, patterns: seq<string>): map<string, seq<byte>>
  {
    map p | p in done && !Excluded(p, patterns) :: ContentAt(root, p)
  }

  /** Visiting one more path writes it exactly when no pattern matches it. */
  lemma WrittenAdd(root: Node, done: set<string>, p: string, patterns: seq<string>)
    ensures Written(root, done + {p}, patterns)
      == if Excluded(p, patterns) then Written(root, done, patterns) else Written(root, done, patterns)[p := ContentAt(root, p)]
  {
  }

  /** A file is archived if and only if it lies below the root and no pattern matches its relative path. */
  lemma ArchivedExact(root: Node, patterns: seq<string>, p: string)
    requires WellFormed(root)
    ensures p in Archived(root, patterns) <==> FileAt(root, p) && forall i :: 0 <= i < |patterns| ==> !Fnmatch(p, patterns[i])
  {
    RelPathsExact(root, p);
  }

  /** `exclude: tmp/` keeps out every file below the top-level `tmp` directory, at any depth, because
      `*` also matches `/`; nothing else is kept out. */
  lemma TmpExcluded(root: Node, p: string)
    ensures p in Archived(root, ExcludePatterns(Some("tmp/"))) <==> p in RelPaths(root) && !StartsWith(p, "tmp/")
  {
    TmpPattern();
    ArchivedOnePattern(root, "tmp/*", p);
    TmpMatch(p);
  }

  /** With a single pattern, a file below the root is archived exactly when that pattern does not match. */
  lemma ArchivedOnePattern(root: Node, pat: string, p: string)
    ensures p in Archived(root, [pat]) <==> p in RelPaths(root) && !Fnmatch(p, pat)
  {
    assert [pat][0] == pat;
  }

  lemma TmpMatch(p: string)
    ensures Fnmatch(p, "tmp/*") <==> StartsWith(p, "tmp/")
  {
    assert NoSpecial("tmp");
    DirectoryPattern("tmp", p);
    assert "tmp" + "/*" == "tmp/*";
    assert "tmp" + "/" == "tmp/";
  }

  lemma TmpPattern()
    ensures ExcludePatterns(Some("tmp/")) == ["tmp/*"]
  {
    TmpLine();
    CleanText(["tmp/"]);
    TmpLinePattern();
  }

  lemma TmpLine()
    ensures Join(["tmp/"], '\n') == "tmp/" && CleanLine(["tmp/"][0])
  {
    assert CleanLine("tmp/");
  }

  lemma TmpLinePattern()
    ensures Patterns(["tmp/"]) == ["tmp/*"]
  {
    assert "tmp/"[3..] == "/";
    assert "tmp/" + "*" == "tmp/*";
  }

  // The pattern `tmp/*` reaches a nested file of the top-level `tmp`, but not a `tmp` directory further down.
  lemma TmpDepth()
    ensures Fnmatch("tmp/a/b.txt", "tmp/*")
    ensures !Fnmatch("x/tmp/c.txt", "tmp/*")
  {
    TmpMatch("tmp/a/b.txt");
    TmpMatch("x/tmp/c.txt");
    assert "tmp/a/b.txt"[..4] == "tmp/";
    assert "x/tmp/c.txt"[..4] != "tmp/" by { assert "x/tmp/c.txt"[0] == 'x'; }
  }

  // The patterns are lower-cased but the paths are not: the line `Cache/` becomes the pattern
  // `cache/*`, which does not keep out `Cache/a.txt`.
  lemma ExcludeIsCaseSensitive()
    ensures !Fnmatch("Cache/a.txt", "cache/*")
  {
    assert NoSpecial("cache");
    DirectoryPattern("cache", "Cache/a.txt");
    assert "cache" + "/*" == "cache/*";
    assert "cache" + "/" == "cache/";
    assert "Cache/a.txt"[..6] != "cache/" by { assert "Cache/a.txt"[0] != 'c'; }
  }

  /** The final bundle is archived with the exclude text `''`, whose one empty pattern matches no
      relative path: every file of the working directory goes in. */
  lemma FinalBundleComplete(root: Node)
    requires WellFormed(root)
    ensures Archived(root, ExcludePatterns(Some(""))) == RelPaths(root)
  {
    EmptyTextPatterns();
    NoEmptyRelPath(root);
    forall p | p in RelPaths(root) ensures !Excluded(p, [""]) {
      EmptyPattern(p);
    }
  }

  // The example target: `a.txt`, `b.log` and `tmp/c.txt`, with the exclude lines `*.log` and `tmp/`,
  // archives `a.txt` alone.
  lemma ExampleTarget(a: seq<byte>, b: seq<byte>, c: seq<byte>)
    ensures var root := Dir(map["a.txt" := File(a), "b.log" := File(b), "tmp" := Dir(map["c.txt" := File(c)])]);
      Archive(root, ExcludePatterns(Some("*.log\ntmp/"))) == map["a.txt" := a]
  {
    LogAndTmpPatterns();
    ExampleArchive(a, b, c);
  }

  lemma ExampleArchive(a: seq<byte>, b: seq<byte>, c: seq<byte>)
    ensures var root := Dir(map["a.txt" := File(a), "b.log" := File(b), "tmp" := Dir(map["c.txt" := File(c)])]);
      Archive(root, ["*.log", "tmp/*"]) == map["a.txt" := a]
  {
    var root := Dir(map["a.txt" := File(a), "b.log" := File(b), "tmp" := Dir(map["c.txt" := File(c)])]);
    ExampleArchived(a, b, c);
    ArchiveSingle(root, ["*.log", "tmp/*"], "a.txt");
    assert ValidName("a.txt");
    ContentOfEntry(root.entries, "a.txt");
  }

  lemma ArchiveSingle(root: Node, patterns: seq<string>, p: string)
    requires Archived(root, patterns) == {p}
    ensures Archive(root, patterns) == map[p := ContentAt(root, p)]
  {
  }

  lemma ExampleArchived(a: seq<byte>, b: seq<byte>, c: seq<byte>)
    ensures var root := Dir(map["a.txt" := File(a), "b.log" := File(b), "tmp" := Dir(map["c.txt" := File(c)])]);
      Archived(root, ["*.log", "tmp/*"]) == {"a.txt"}
  {
    ExampleWalk(a, b, c);
    ExampleFilter();
  }

  lemma ExampleWalk(a: seq<byte>, b: seq<byte>, c: seq<byte>)
    ensures RelPaths(Dir(map["a.txt" := File(a), "b.log" := File(b), "tmp" := Dir(map["c.txt" := File(c)])]))
      == {"a.txt", "b.log", "tmp/c.txt"}
  {
    var tmp := Dir(map["c.txt" := File(c)]);
    assert RelPaths(File(c)) == {};
    assert RelPaths(tmp) == {"c.txt"};
    assert "tmp" + "/" + "c.txt" == "tmp/c.txt";
  }

  lemma ExampleFilter()
    ensures !Excluded("a.txt", ["*.log", "tmp/*"])
    ensures Excluded("b.log", ["*.log", "tmp/*"])
    ensures Excluded("tmp/c.txt", ["*.log", "tmp/*"])
  {
    LogPattern();
    KeptFile();
    LogFile();
    TmpFile();
  }

  lemma LogPattern()
    ensures forall s :: Fnmatch(s, "*.log") <==> EndsWith(s, ".log")
  {
    assert NoSpecial(".log");
    forall s {
      SuffixPattern(".log", s);
    }
    assert "*" + ".log" == "*.log";
  }

  lemma KeptFile()
    requires forall s :: Fnmatch(s, "*.log") <==> EndsWith(s, ".log")
    ensures !Excluded("a.txt", ["*.log", "tmp/*"])
  {
    var pats := ["*.log", "tmp/*"];
    assert "a.txt"[1..] != ".log" by { assert "a.txt"[1..][0] == '.'; assert "a.txt"[1..][1] == 't'; }
    TmpMatch("a.txt");
    assert "a.txt"[..4] != "tmp/";
    assert !Fnmatch("a.txt", pats[0]) && !Fnmatch("a.txt", pats[1]);
  }

  lemma LogFile()
    requires forall s :: Fnmatch(s, "*.log") <==> EndsWith(s, ".log")
    ensures Excluded("b.log", ["*.log", "tmp/*"])
  {
    var pats := ["*.log", "tmp/*"];
    assert "b.log"[1..] == ".log";
    assert Fnmatch("b.log", pats[0]);
  }

  lemma TmpFile()
    ensures Excluded("tmp/c.txt", ["*.log", "tmp/*"])
  {
    var pats := ["*.log", "tmp/*"];
    TmpMatch("tmp/c.txt");
    assert "tmp/c.txt"[..4] == "tmp/";
    assert Fnmatch("tmp/c.txt", pats[1]);
  }
}
