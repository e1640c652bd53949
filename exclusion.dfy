/** The `exclude` setting of a backup target: its text becomes a list of patterns, and a relative path
    is excluded from the target's archive when it matches any of them (backup.py:113-150). */
module Exclusion {
  import opened Base
  import opened Text
  import opened Glob

  /** The cleaned lines of the exclude text: the whole text stripped, carriage returns removed, split at
      newlines, and each line stripped and lower-cased. */
  function ExcludeLines(text: string): seq<string>
  {
    CleanLines(Split(RemoveChar(Strip(text), '\r'), '\n'))
  }

  /** Each piece stripped and lower-cased (the list comprehension of `_process_exclude_text`). */
  function CleanLines(parts: seq<string>): (lines: seq<string>)
    ensures |lines| == |parts|
  {
    seq(|parts|, i requires 0 <= i < |parts| => Lower(Strip(parts[i])))
  }

  /** A line that ends in `/` stands for everything below that directory. */
  function ToPattern(line: string): string
  {
    if EndsWith(line, "/") then line + "*" else line
  }

  /** One pattern per line, in order. */
  function Patterns(lines: seq<string>): (pats: seq<string>)
    ensures |pats| == |lines|
  {
    seq(|lines|, i requires 0 <= i < |lines| => ToPattern(lines[i]))
  }

  /** The patterns `_process_exclude_text` returns: none for an absent (`None`) text, otherwise one per
      cleaned line. */
  function ExcludePatterns(text: Option<string>): seq<string>
  {
    match text
    case None => []
    case Some(t) => Patterns(ExcludeLines(t))
  }

  /** `_process_exclude_text`: `None` gives no patterns; otherwise the cleaned lines go through the loop. */
  method ProcessExcludeText(text: Option<string>) returns (res: seq<string>)
    ensures res == ExcludePatterns(text)
  {
    if text.None? {
      return [];
    }
    var lines := ExcludeLines(text.value);
    res := AppendPatterns(lines);
  }

  /** The loop of `_process_exclude_text`: one pattern appended per cleaned line. */
  method AppendPatterns(lines: seq<string>) returns (res: seq<string>)
    ensures res == Patterns(lines)
    ensures |res| == |lines|
    ensures forall i :: 0 <= i < |lines| && EndsWith(lines[i], "/") ==> res[i] == lines[i] + "*"
    ensures forall i :: 0 <= i < |lines| && !EndsWith(lines[i], "/") ==> res[i] == lines[i]
  {
    ghost var want := Patterns(lines);
    res := [];
    var i := 0;
    while i < |lines|
      invariant 0 <= i <= |lines|
      invariant res == want[..i]
    {
      assert want[i] == ToPattern(lines[i]);
      var line := lines[i];
      if EndsWith(line, "/") {
        res := res + [line + "*"];
      } else {
        res := res + [line];
      }
      i := i + 1;
    }
    assert want[..i] == want;
  }

  /** A path is excluded when some pattern matches it. */
  predicate Excluded(path: string, patterns: seq<string>)
  {
    exists i :: 0 <= i < |patterns| && Fnmatch(path, patterns[i])
  }

  /** The inner `for ... else` loop of `_create_zip_from_directory`: stop at the first matching pattern. */
  method IsExcluded(path: string, patterns: seq<string>) returns (excluded: bool)
    ensures excluded <==> Excluded(path, patterns)
  {
    excluded := false;
    var i := 0;
    while i < |patterns|
      invariant 0 <= i <= |patterns|
      invariant forall k :: 0 <= k < i ==> !Fnmatch(path, patterns[k])
    {
      if Fnmatch(path, patterns[i]) {
        excluded := true;
        break;
      }
      i := i + 1;
    }
  }

  /** There is one pattern per line of the text left after stripping it and removing carriage returns. */
  lemma PatternCount(t: string)
    ensures |ExcludePatterns(Some(t))| == Count(RemoveChar(Strip(t), '\r'), '\n') + 1
  {
    SplitCount(RemoveChar(Strip(t), '\r'), '\n');
  }

  /** An empty exclude text yields the single empty pattern `['']`. */
  lemma EmptyTextPatterns()
    ensures ExcludePatterns(Some("")) == [""]
  {
    assert TrimLeft("") == "";
    assert Strip("") == "";
    assert Split("", '\n') == [""];
    assert ExcludeLines("") == [Lower(Strip(""))];
  }

  /** The character shape of a pattern: no upper-case letter, no line break, and no leading blank. */
  predicate PatternChars(p: string)
  {
    && (forall k :: 0 <= k < |p| ==> !IsUpper(p[k]) && p[k] != '\n' && p[k] != '\r')
    && (p != [] ==> !IsSpace(p[0]))
  }

  /** Every pattern is lower-case, holds no line break, and starts with a non-blank character. */
  lemma PatternShape(t: string, i: nat)
    requires i < |ExcludePatterns(Some(t))|
    ensures PatternChars(ExcludePatterns(Some(t))[i])
  {
    var parts := Split(RemoveChar(Strip(t), '\r'), '\n');
    assert '\r' !in parts[i] by {
      JoinHasNo(parts, '\n', '\r', i);
    }
    assert ExcludeLines(t)[i] == Lower(Strip(parts[i]));
    LinePattern(parts[i]);
  }

  /** One line of the exclude text, free of line breaks, becomes a pattern of that shape. */
  lemma LinePattern(part: string)
    requires '\r' !in part && '\n' !in part
    ensures PatternChars(ToPattern(Lower(Strip(part))))
  {
    var s := Strip(part);
    StripKeepsOut(part, '\r');
    StripKeepsOut(part, '\n');
    StripEnds(part);
    LowerChars(s);
    StarChars(Lower(s));
  }

  /** Lower-casing a text without line breaks or a leading blank gives a pattern's characters. */
  lemma LowerChars(s: string)
    requires '\r' !in s && '\n' !in s && (s != [] ==> !IsSpace(s[0]))
    ensures PatternChars(Lower(s))
  {
    var line := Lower(s);
    forall k | 0 <= k < |line| ensures !IsUpper(line[k]) && line[k] != '\n' && line[k] != '\r' {
      assert line[k] == LowerChar(s[k]);
      assert s[k] in s;
    }
  }

  /** Appending the `*` of a directory line keeps a pattern's characters. */
  lemma StarChars(line: string)
    requires PatternChars(line)
    ensures PatternChars(ToPattern(line))
  {
    if EndsWith(line, "/") {
      var p := line + "*";
      assert forall k :: 0 <= k < |line| ==> p[k] == line[k];
      assert p[|line|] == '*';
    }
  }

  /** A character absent from the joined text is absent from every piece. */
  lemma {:induction false} JoinHasNo(parts: seq<string>, sep: char, c: char, i: nat)
    requires i < |parts|
    requires c !in Join(parts, sep)
    ensures c !in parts[i]
    decreases |parts|
  {
    if |parts| > 1 {
      var rest := Join(parts[1..], sep);
      assert Join(parts, sep) == parts[0] + [sep] + rest;
      if i == 0 {
        forall k | 0 <= k < |parts[0]| ensures parts[0][k] != c {
          assert Join(parts, sep)[k] == parts[0][k];
        }
      } else {
        forall k | 0 <= k < |rest| ensures rest[k] != c {
          assert Join(parts, sep)[|parts[0]| + 1 + k] == rest[k];
        }
        JoinHasNo(parts[1..], sep, c, i - 1);
      }
    }
  }

  /** A character other than the separator that no piece holds is absent from the join. */
  lemma {:induction false} JoinAvoids(parts: seq<string>, sep: char, c: char)
    requires c != sep
    requires forall i :: 0 <= i < |parts| ==> c !in parts[i]
    ensures c !in Join(parts, sep)
    decreases |parts|
  {
    if |parts| > 1 {
      JoinAvoids(parts[1..], sep, c);
      assert Join(parts, sep) == parts[0] + [sep] + Join(parts[1..], sep);
    }
  }

  /** A clean line: not empty, no whitespace (so no line break) and no upper-case letter. */
  predicate CleanLine(l: string)
  {
    l != [] && forall k :: 0 <= k < |l| ==> !IsSpace(l[k]) && !IsUpper(l[k])
  }

  /** Clean lines joined by newlines come back unchanged as the lines, and so as their patterns. */
  lemma CleanText(lines: seq<string>)
    requires |lines| >= 1
    requires forall i :: 0 <= i < |lines| ==> CleanLine(lines[i])
    ensures ExcludeLines(Join(lines, '\n')) == lines
    ensures ExcludePatterns(Some(Join(lines, '\n'))) == Patterns(lines)
  {
    var t := Join(lines, '\n');
    CleanLinesFacts(lines);
    CleanJoinNoop(lines);
    SplitJoin(lines, '\n');
    CleanLinesNoop(lines);
    assert ExcludeLines(t) == CleanLines(Split(t, '\n'));
  }

  lemma CleanLinesFacts(lines: seq<string>)
    requires forall i :: 0 <= i < |lines| ==> CleanLine(lines[i])
    ensures forall i :: 0 <= i < |lines| ==> '\n' !in lines[i] && '\r' !in lines[i] && Lower(Strip(lines[i])) == lines[i]
  {
    forall i | 0 <= i < |lines| ensures '\n' !in lines[i] && '\r' !in lines[i] && Lower(Strip(lines[i])) == lines[i] {
      CleanLineFacts(lines[i]);
    }
  }

  /** Clean lines joined by newlines are left alone by the outer strip and the carriage-return removal. */
  lemma CleanJoinNoop(lines: seq<string>)
    requires |lines| >= 1
    requires forall i :: 0 <= i < |lines| ==> CleanLine(lines[i])
    requires forall i :: 0 <= i < |lines| ==> '\r' !in lines[i]
    ensures RemoveChar(Strip(Join(lines, '\n')), '\r') == Join(lines, '\n')
  {
    var t := Join(lines, '\n');
    JoinEnds(lines, '\n');
    StripNoop(t);
    JoinAvoids(lines, '\n', '\r');
  }

  /** Lines that are already stripped and lower-case are left as they are. */
  lemma CleanLinesNoop(parts: seq<string>)
    requires forall i :: 0 <= i < |parts| ==> Lower(Strip(parts[i])) == parts[i]
    ensures CleanLines(parts) == parts
  {
    var lines := CleanLines(parts);
    forall i | 0 <= i < |parts| ensures lines[i] == parts[i] {
    }
  }

  /** A clean line holds no line break and is its own stripped, lower-cased form. */
  lemma CleanLineFacts(l: string)
    requires CleanLine(l)
    ensures '\n' !in l && '\r' !in l && Lower(Strip(l)) == l
  {
    assert !IsSpace(l[0]) && !IsSpace(l[|l| - 1]);
    StripNoop(l);
    var low := Lower(l);
    assert low == l;
  }

  /** The joined text starts with the first piece's first character and ends with the last's last. */
  lemma {:induction false} JoinEnds(parts: seq<string>, sep: char)
    requires |parts| >= 1 && forall i :: 0 <= i < |parts| ==> parts[i] != []
    ensures var t := Join(parts, sep); t != [] && t[0] == parts[0][0] && t[|t| - 1] == parts[|parts| - 1][|parts[|parts| - 1]| - 1]
    decreases |parts|
  {
    if |parts| > 1 {
      var rest := parts[1..];
      assert rest[|rest| - 1] == parts[|parts| - 1];
      if |rest| == 1 {
      } else {
        JoinEnds(rest, sep);
      }
    }
  }

  // The example text with lines `*.log` and `tmp/` gives the patterns `*.log` and `tmp/*`.
  lemma LogAndTmpPatterns()
    ensures ExcludePatterns(Some("*.log\ntmp/")) == ["*.log", "tmp/*"]
  {
    var lines := ["*.log", "tmp/"];
    ExamplePatterns();
    ExampleLines();
    CleanText(lines);
  }

  lemma ExampleLines()
    ensures var lines := ["*.log", "tmp/"];
      Join(lines, '\n') == "*.log\ntmp/" && CleanLine(lines[0]) && CleanLine(lines[1])
  {
    assert CleanLine("*.log");
    assert CleanLine("tmp/");
  }

  lemma ExamplePatterns()
    ensures Patterns(["*.log", "tmp/"]) == ["*.log", "tmp/*"]
  {
    assert "tmp/"[3..] == "/";
    assert "tmp/" + "*" == "tmp/*";
    assert ToPattern("tmp/") == "tmp/*";
    assert "*.log"[4..] == "g";
    assert ToPattern("*.log") == "*.log";
  }
}
