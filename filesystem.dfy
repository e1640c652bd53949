/** The file system the script reads: a directory maps entry names to regular files (their bytes) or to
    sub-directories. Symbolic links, special files and permissions are not part of this model. */
module FileSystem {
  import opened Base
  import opened Text

  datatype Node = File(content: seq<byte>) | Dir(entries: map<string, Node>)

  /** Entry names are what `os.listdir` can return: not empty and free of `/`, at every level. */
  predicate WellFormed(n: Node)
  {
    match n
    case File(_) => true
    case Dir(es) => forall name :: name in es ==> ValidName(name) && WellFormed(es[name])
  }

  predicate ValidName(name: string)
  {
    name != [] && '/' !in name
  }

  /** The directory names among the entries (the `directories` list of `_get_folders_files`). */
  function Folders(es: map<string, Node>): set<string>
  {
    set name | name in es && es[name].Dir?
  }

  /** The regular-file names among the entries (the `files` list of `_get_folders_files`). */
  function Files(es: map<string, Node>): set<string>
  {
    set name | name in es && es[name].File?
  }

  /** Every entry is either a folder or a file, never both: the two lists split the listing. */
  lemma FoldersFilesPartition(es: map<string, Node>)
    ensures Folders(es) + Files(es) == es.Keys
    ensures Folders(es) * Files(es) == {}
  {
  }

  /** `_get_folders_files(path)`: listing a missing path raises `FileNotFoundError`, listing a regular
      file `NotADirectoryError`; a directory gives its folder and file names. */
  function GetFoldersFiles(n: Option<Node>): (r: Result<(set<string>, set<string>), Error>)
    ensures n.None? ==> r == Err(FileNotFoundError)
    ensures n.Some? && n.value.File? ==> r == Err(NotADirectoryError)
    ensures n.Some? && n.value.Dir? ==>
      && r.Ok? && r.value.0 + r.value.1 == n.value.entries.Keys
      && (forall name :: name in r.value.0 <==> name in n.value.entries && n.value.entries[name].Dir?)
      && (forall name :: name in r.value.1 <==> name in n.value.entries && n.value.entries[name].File?)
  {
    match n
    case None => Err(FileNotFoundError)
    case Some(File(_)) => Err(NotADirectoryError)
    case Some(Dir(es)) =>
      FoldersFilesPartition(es);
      Ok((Folders(es), Files(es)))
  }

  /** `os.path.join(a, b)` on POSIX: an absolute `b` replaces `a`, otherwise one `/` is put between
      them unless `a` is empty or already ends with one. */
  function JoinPath(a: string, b: string): string
  {
    if StartsWith(b, "/") then b
    else if a == [] || EndsWith(a, "/") then a + b
    else a + "/" + b
  }

  /** The components of a path that `pathlib` keeps: empty ones (from repeated or trailing slashes) and
      `.` are dropped. */
  function PathParts(p: string): (parts: seq<string>)
    ensures forall i :: 0 <= i < |parts| ==> parts[i] != [] && parts[i] != "." && '/' !in parts[i]
  {
    Keep(Split(p, '/'))
  }

  function Keep(cs: seq<string>): (parts: seq<string>)
    requires forall i :: 0 <= i < |cs| ==> '/' !in cs[i]
    ensures forall i :: 0 <= i < |parts| ==> parts[i] != [] && parts[i] != "." && '/' !in parts[i]
    ensures |parts| <= |cs|
  {
    if cs == [] then []
    else
      var rest := Keep(cs[1..]);
      if cs[0] == [] || cs[0] == "." then rest else [cs[0]] + rest
  }

  /** `Path(p).name`: the last component kept by `pathlib`, or the empty string when there is none. */
  function PathName(p: string): string
  {
    var parts := PathParts(p);
    if parts == [] then "" else parts[|parts| - 1]
  }

  /** Keeping components is compatible with concatenation. */
  lemma {:induction false} KeepAppend(a: seq<string>, b: seq<string>)
    requires forall i :: 0 <= i < |a| ==> '/' !in a[i]
    requires forall i :: 0 <= i < |b| ==> '/' !in b[i]
    ensures Keep(a + b) == Keep(a) + Keep(b)
    decreases |a|
  {
    if a == [] {
      assert a + b == b;
    } else {
      assert (a + b)[1..] == a[1..] + b;
      KeepAppend(a[1..], b);
    }
  }

  /** The name of an entry joined onto its directory's path is that entry's name again, which is why the
      manifest can key its checksums by `Path(f).name` of the joined paths. */
  lemma NameOfJoin(dir: string, name: string)
    requires ValidName(name) && name != "."
    ensures PathName(JoinPath(dir, name)) == name
  {
    assert !StartsWith(name, "/") by {
      assert name[0] in name;
    }
    if dir == [] {
      PathNameSingle(name);
    } else if EndsWith(dir, "/") {
      var head := dir[..|dir| - 1];
      assert dir == head + ['/'];
      assert JoinPath(dir, name) == head + ['/'] + name;
      PathNameLast(head, name);
    } else {
      assert JoinPath(dir, name) == dir + ['/'] + name;
      PathNameLast(dir, name);
    }
  }

  lemma PathNameSingle(name: string)
    requires ValidName(name) && name != "."
    ensures PathName(name) == name
  {
    assert Split(name, '/') == [name];
    assert Keep([name][1..]) == [];
  }

  lemma PathNameLast(head: string, name: string)
    requires ValidName(name) && name != "."
    ensures PathName(head + ['/'] + name) == name
  {
    SplitAppendLast(head, name);
    var cs := Split(head, '/');
    KeepAppend(cs, [name]);
    KeepOne(name);
    var parts := Keep(cs) + [name];
    assert PathParts(head + ['/'] + name) == parts;
    assert parts[|parts| - 1] == name;
  }

  lemma KeepOne(name: string)
    requires ValidName(name) && name != "."
    ensures Keep([name]) == [name]
  {
    assert [name][1..] == [];
  }

  /** Splitting `head + "/" + last`, with `last` free of separators, ends in `last`. */
  lemma {:induction false} SplitAppendLast(head: string, last: string)
    requires '/' !in last
    ensures Split(head + ['/'] + last, '/') == Split(head, '/') + [last]
    decreases |head|
  {
    var s := head + ['/'] + last;
    if '/' !in head {
      SplitCons(head, '/', last);
      assert Split(last, '/') == [last];
    } else {
      var i := IndexOf(head, '/');
      var a := head[..i];
      var b := head[i + 1..];
      assert head == a + ['/'] + b;
      assert '/' !in a;
      var tail := b + ['/'] + last;
      assert s == a + ['/'] + tail;
      SplitCons(a, '/', tail);
      assert Split(s, '/') == [a] + Split(tail, '/');
      SplitAppendLast(b, last);
      assert Split(tail, '/') == Split(b, '/') + [last];
      SplitCons(a, '/', b);
      assert Split(head, '/') == [a] + Split(b, '/');
    }
  }

  /** The paths, relative to `n`, of the regular files at any depth below it: what `os.walk` visits,
      joined and made relative with `os.path.relpath`. Directories contribute only what they contain. */
  function RelPaths(n: Node): set<string>
  {
    match n
    case File(_) => {}
    case Dir(es) =>
      (set name | name in es && es[name].File?)
      + (set name, sub | name in es && es[name].Dir? && sub in RelPaths(es[name]) :: name + "/" + sub)
  }

  /** The node reached by following the path components from `n`, if any. */
  function Resolve(n: Node, comps: seq<string>): Option<Node>
  {
    if comps == [] then Some(n)
    else match n
      case File(_) => None
      case Dir(es) => if comps[0] in es then Resolve(es[comps[0]], comps[1..]) else None
  }

  /** `p` names a regular file below `n`. */
  predicate FileAt(n: Node, p: string)
  {
    var r := Resolve(n, Split(p, '/'));
    r.Some? && r.value.File?
  }

  /** The walk visits exactly the paths that name regular files: in a well-formed tree a relative path
      is reported if and only if following its components leads to a regular file. */
  lemma {:induction false} RelPathsExact(n: Node, p: string)
    requires WellFormed(n)
    ensures p in RelPaths(n) <==> FileAt(n, p)
    decreases n
  {
    var cs := Split(p, '/');
    match n
    case File(_) =>
      assert cs != [];
    case Dir(es) =>
      if p in RelPaths(n) {
        if name :| name == p && name in es && es[name].File? {
          assert ValidName(name);
          assert cs == [name];
          assert Resolve(n, cs) == Resolve(es[name], cs[1..]);
          assert cs[1..] == [];
        } else {
          var name, sub :| name in es && es[name].Dir? && sub in RelPaths(es[name]) && p == name + "/" + sub;
          assert ValidName(name);
          SplitCons(name, '/', sub);
          assert cs == [name] + Split(sub, '/');
          assert cs[1..] == Split(sub, '/');
          RelPathsExact(es[name], sub);
          assert Resolve(n, cs) == Resolve(es[name], cs[1..]);
        }
      }
      if FileAt(n, p) {
        assert cs[0] in es;
        var child := es[cs[0]];
        assert Resolve(n, cs) == Resolve(child, cs[1..]);
        if '/' !in p {
          assert cs == [p];
          assert cs[1..] == [];
          assert p in (set name | name in es && es[name].File?);
        } else {
          var i := IndexOf(p, '/');
          var sub := p[i + 1..];
          assert cs == [p[..i]] + Split(sub, '/');
          assert cs[1..] == Split(sub, '/');
          assert Split(sub, '/') != [];
          assert child.Dir?;
          RelPathsExact(child, sub);
          assert p == cs[0] + "/" + sub;
          assert p in (set name, sub | name in es && es[name].Dir? && sub in RelPaths(es[name]) :: name + "/" + sub);
        }
      }
  }

  /** The bytes of the regular file `p` names below `n` (empty when it names none). */
  function ContentAt(n: Node, p: string): seq<byte>
  {
    match Resolve(n, Split(p, '/'))
    case Some(File(c)) => c
    case _ => []
  }

  /** A file directly in a directory is read under its own name. */
  lemma ContentOfEntry(es: map<string, Node>, name: string)
    requires ValidName(name) && name in es && es[name].File?
    ensures FileAt(Dir(es), name) && ContentAt(Dir(es), name) == es[name].content
  {
    assert Split(name, '/') == [name];
    assert Resolve(Dir(es), [name]) == Resolve(es[name], []);
  }

  /** In a well-formed tree no file has the empty relative path. */
  lemma NoEmptyRelPath(n: Node)
    requires WellFormed(n)
    ensures "" !in RelPaths(n)
  {
    RelPathsExact(n, "");
    assert Split("", '/') == [""];
  }
}
