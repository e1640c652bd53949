/** Finding what to back up: an input path is itself a backup folder when it holds `backup.yaml`,
    otherwise its immediate sub-folders are looked at (`process_input_path`, backup.py:200-217); a
    folder is skipped, or its pre-backup command run and its archive written, by `handle_backup_folder`
    (backup.py:166-185). The YAML text is not parsed here: a folder's configuration is the value
    `yaml.safe_load` returns. */
module Discovery {
  import opened Base
  import opened Text
  import opened FileSystem
  import opened Exclusion
  import opened Archiver

  const ConfigName := "backup.yaml"

  /** A directory that holds a regular file `backup.yaml`. */
  predicate HasConfig(n: Node)
  {
    n.Dir? && ConfigName in n.entries && n.entries[ConfigName].File?
  }

  /** What `process_input_path` does with a folder: hand it to `handle_backup_folder`, or warn that it
      has no configuration. */
  datatype Visit = Target(path: string) | Warning(folder: string)

  /** `process_input_path(path)`, reduced to the folders it visits; listing the input path raises as
      `_get_folders_files` does. The order of the listing is not modelled. */
  function SelectTargets(path: string, n: Option<Node>): Result<set<Visit>, Error>
  {
    match GetFoldersFiles(n)
    case Err(e) => Err(e)
    case Ok(listing) =>
      if ConfigName in listing.1 then Ok({Target(path)})
      else Ok(set d | d in listing.0 :: VisitOf(path, d, n.value.entries[d]))
  }

  /** The inner test of the loop, on the sub-folder `d` of `path`. */
  function VisitOf(path: string, d: string, child: Node): Visit
  {
    if HasConfig(child) then Target(JoinPath(path, d)) else Warning(d)
  }

  /** Listing a missing input path raises `FileNotFoundError`, a regular file `NotADirectoryError`. */
  lemma SelectErrors(path: string, n: Option<Node>)
    ensures n.None? ==> SelectTargets(path, n) == Err(FileNotFoundError)
    ensures n.Some? && n.value.File? ==> SelectTargets(path, n) == Err(NotADirectoryError)
    ensures n.Some? && n.value.Dir? ==> SelectTargets(path, n).Ok?
  {
  }

  /** An input path that holds its own `backup.yaml` is the one and only target: its sub-folders are
      not looked at. */
  lemma SelectOwnConfig(path: string, n: Node)
    requires HasConfig(n)
    ensures SelectTargets(path, Some(n)) == Ok({Target(path)})
  {
  }

  /** Otherwise every immediate sub-folder is either a target, when it holds `backup.yaml`, or a
      warning; nothing deeper and nothing that is not a folder is visited. */
  lemma SelectChildren(path: string, n: Node)
    requires n.Dir? && !HasConfig(n)
    ensures SelectTargets(path, Some(n)).Ok?
    ensures var visits := SelectTargets(path, Some(n)).value;
      && (forall d :: d in n.entries && n.entries[d].Dir? && HasConfig(n.entries[d]) ==> Target(JoinPath(path, d)) in visits)
      && (forall d :: Warning(d) in visits <==> d in n.entries && n.entries[d].Dir? && !HasConfig(n.entries[d]))
      && (forall v :: v in visits && v.Target? ==>
            exists d :: d in n.entries && n.entries[d].Dir? && HasConfig(n.entries[d]) && v.path == JoinPath(path, d))
  {
    var visits := SelectTargets(path, Some(n)).value;
    var dirs := Folders(n.entries);
    assert !(ConfigName in Files(n.entries));
    assert visits == set d | d in dirs :: VisitOf(path, d, n.entries[d]);
    forall d | d in n.entries && n.entries[d].Dir? && HasConfig(n.entries[d])
      ensures Target(JoinPath(path, d)) in visits
    {
      assert VisitOf(path, d, n.entries[d]) == Target(JoinPath(path, d));
    }
    forall d | d in n.entries && n.entries[d].Dir? && !HasConfig(n.entries[d])
      ensures Warning(d) in visits
    {
      assert VisitOf(path, d, n.entries[d]) == Warning(d);
    }
  }

  // ---------------------------------------------------------------------------------------------------
  // A folder's configuration

  /** The values `yaml.safe_load` can give. */
  datatype Yaml =
    | YNull
    | YBool(b: bool)
    | YInt(i: int)
    | YFloat(f: real)
    | YStr(s: string)
    | YList(items: seq<Yaml>)
    | YMap(m: map<string, Yaml>)

  /** The number a boolean, integer or float stands for in Python's numeric comparisons. */
  function Numeric(v: Yaml): Option<real>
  {
    match v
    case YBool(b) => Some(if b then 1.0 else 0.0)
    case YInt(i) => Some(i as real)
    case YFloat(f) => Some(f)
    case _ => None
  }

  /** Python's `==` between a configuration value and a boolean or a string. */
  predicate PyEquals(v: Yaml, w: Yaml)
    requires w.YBool? || w.YStr?
  {
    if w.YBool? then Numeric(v) == Numeric(w) else v == w
  }

  /** `folder_config.get('ignore', 'false') in (True, 'true', 'True')`; the tuple test compares with
      `==`. */
  predicate IsIgnored(cfg: map<string, Yaml>)
  {
    var v := if "ignore" in cfg then cfg["ignore"] else YStr("false");
    PyEquals(v, YBool(true)) || PyEquals(v, YStr("true")) || PyEquals(v, YStr("True"))
  }

  /** The values that skip a folder are exactly `True`, `1`, `1.0`, `'true'` and `'True'`; a folder
      without the key is never skipped. */
  lemma IgnoredExact(cfg: map<string, Yaml>)
    ensures IsIgnored(cfg) <==>
      "ignore" in cfg && cfg["ignore"] in {YBool(true), YInt(1), YFloat(1.0), YStr("true"), YStr("True")}
  {
    if "ignore" in cfg {
      var v := cfg["ignore"];
      if IsIgnored(cfg) && v.YInt? {
        assert v.i as real == 1.0;
      }
    } else {
      assert YStr("false") != YStr("true") by { assert "false"[0] != "true"[0]; }
      assert YStr("false") != YStr("True") by { assert "false"[0] != "True"[0]; }
    }
  }

  /** The quoted texts `'yes'`, `'TRUE'` and `''`, the boolean false and the integer 2 do not skip a
      folder. Unquoted, `yes`, `TRUE` and `on` are booleans in YAML 1.1, which `yaml.safe_load`
      follows: they load as `YBool(true)` and do skip the folder (`IgnoredExact`). */
  lemma NotIgnored()
    ensures !IsIgnored(map["ignore" := YStr("yes")])
    ensures !IsIgnored(map["ignore" := YStr("TRUE")])
    ensures !IsIgnored(map["ignore" := YBool(false)])
    ensures !IsIgnored(map["ignore" := YInt(2)])
    ensures !IsIgnored(map["ignore" := YStr("")])
  {
    assert "TRUE"[1] != "true"[1] && "TRUE"[1] != "True"[1];
    assert "yes" != "true" && "yes" != "True";
  }

  /** Python's truth value of a loaded document. */
  predicate Truthy(v: Yaml)
  {
    match v
    case YNull => false
    case YBool(b) => b
    case YInt(i) => i != 0
    case YFloat(f) => f != 0.0
    case YStr(s) => s != []
    case YList(items) => items != []
    case YMap(m) => m != map[]
  }

  /** `yaml.safe_load(f) or dict()`: an empty document gives no settings; a document that is not a
      mapping has no `.get`, which raises `AttributeError`. */
  function FolderConfig(doc: Yaml): (r: Result<map<string, Yaml>, Error>)
  {
    if !Truthy(doc) then Ok(map[])
    else if doc.YMap? then Ok(doc.m)
    else Err(AttributeError)
  }

  /** `folder_config.get('exclude', '')`: text is used as it is, an empty setting is `None`, and any
      other value fails in `text.strip()` with `AttributeError`. */
  function ExcludeSetting(cfg: map<string, Yaml>): Result<Option<string>, Error>
  {
    var v := if "exclude" in cfg then cfg["exclude"] else YStr("");
    match v
    case YStr(s) => Ok(Some(s))
    case YNull => Ok(None)
    case _ => Err(AttributeError)
  }

  /** The folder's pre-backup command, if it has one (`folder_config.get('command')` is not `None`). */
  predicate HasCommand(cfg: map<string, Yaml>)
  {
    "command" in cfg && cfg["command"] != YNull
  }

  /** `os.path.join(output_dir, Path(path).name + '.zip')`. */
  function ArchivePath(outputDir: string, path: string): string
  {
    JoinPath(outputDir, PathName(path) + ".zip")
  }

  datatype Handled = Ignored | Written(file: string, archive: map<string, seq<byte>>)

  /** `handle_backup_folder(config, output_dir, path)` on the folder `folder` at `path` whose
      `backup.yaml` loads as `doc`; `commandSucceeds` is the outcome of the folder's command, which is
      run only when there is one. */
  function HandleBackupFolder(outputDir: string, path: string, folder: Node, doc: Yaml, commandSucceeds: bool): Result<Handled, Error>
  {
    match FolderConfig(doc)
    case Err(e) => Err(e)
    case Ok(cfg) =>
      if IsIgnored(cfg) then Ok(Ignored)
      else if HasCommand(cfg) && !commandSucceeds then Err(CommandError)
      else match ExcludeSetting(cfg)
        case Err(e) => Err(e)
        case Ok(text) => Ok(Written(ArchivePath(outputDir, path), Archive(folder, ExcludePatterns(text))))
  }

  /** A folder is archived exactly when its configuration loads, it is not ignored, its command (if
      any) succeeds and its exclude setting is text or empty. */
  lemma HandleWrites(outputDir: string, path: string, folder: Node, doc: Yaml, commandSucceeds: bool)
    ensures var r := HandleBackupFolder(outputDir, path, folder, doc, commandSucceeds);
      r.Ok? && r.value.Written? <==>
        && FolderConfig(doc).Ok? && !IsIgnored(FolderConfig(doc).value)
        && (HasCommand(FolderConfig(doc).value) ==> commandSucceeds)
        && ExcludeSetting(FolderConfig(doc).value).Ok?
  {
  }

  /** What is written is the filtered walk of the folder, under the folder's name. */
  lemma HandleArchive(outputDir: string, path: string, folder: Node, doc: Yaml, commandSucceeds: bool)
    requires var r := HandleBackupFolder(outputDir, path, folder, doc, commandSucceeds); r.Ok? && r.value.Written?
    ensures var w := HandleBackupFolder(outputDir, path, folder, doc, commandSucceeds).value;
      && FolderConfig(doc).Ok? && ExcludeSetting(FolderConfig(doc).value).Ok?
      && w.file == ArchivePath(outputDir, path)
      && w.archive == Archive(folder, ExcludePatterns(ExcludeSetting(FolderConfig(doc).value).value))
  {
  }

  /** An ignored folder is skipped before its command could run or fail; a failing command of a
      folder that is not ignored stops the backup with `CommandError` before anything is archived. */
  lemma HandleSkips(outputDir: string, path: string, folder: Node, doc: Yaml, commandSucceeds: bool)
    requires FolderConfig(doc).Ok?
    ensures var cfg, r := FolderConfig(doc).value, HandleBackupFolder(outputDir, path, folder, doc, commandSucceeds);
      && (IsIgnored(cfg) ==> r == Ok(Ignored))
      && (!IsIgnored(cfg) && HasCommand(cfg) && !commandSucceeds ==> r == Err(CommandError))
  {
  }

  /** Without settings a folder is not ignored, has no command and excludes by the empty text. */
  lemma DefaultSettings(cfg: map<string, Yaml>)
    requires "ignore" !in cfg && "command" !in cfg && "exclude" !in cfg
    ensures !IsIgnored(cfg) && !HasCommand(cfg) && ExcludeSetting(cfg) == Ok(Some(""))
  {
    assert "false"[0] != "true"[0] && "false"[0] != "True"[0];
  }

  /** An empty `backup.yaml` archives the whole folder. */
  lemma EmptyConfigArchivesAll(outputDir: string, path: string, folder: Node, doc: Yaml, commandSucceeds: bool)
    requires WellFormed(folder) && !Truthy(doc)
    ensures var r := HandleBackupFolder(outputDir, path, folder, doc, commandSucceeds);
      r.Ok? && r.value.Written? && r.value.archive.Keys == RelPaths(folder)
  {
    var cfg := FolderConfig(doc).value;
    assert cfg == map[];
    DefaultSettings(cfg);
    HandleWrites(outputDir, path, folder, doc, commandSucceeds);
    HandleArchive(outputDir, path, folder, doc, commandSucceeds);
    var patterns := ExcludePatterns(Some(""));
    assert HandleBackupFolder(outputDir, path, folder, doc, commandSucceeds).value.archive == Archive(folder, patterns);
    ArchiveKeys(folder, patterns);
    FinalBundleComplete(folder);
  }

  /** The archive is named after the folder: the last component of its path with `.zip` added,
      whatever the output directory. */
  lemma ArchiveNamed(outputDir: string, path: string)
    ensures PathName(ArchivePath(outputDir, path)) == PathName(path) + ".zip"
  {
    var name := PathName(path) + ".zip";
    assert '/' !in PathName(path) by {
      var parts := PathParts(path);
      if parts != [] {
        assert '/' !in parts[|parts| - 1];
      }
    }
    assert '/' !in name by {
      assert forall i :: 0 <= i < |name| ==> name[i] != '/' by {
        forall i | 0 <= i < |name|
          ensures name[i] != '/'
        {
          if i < |PathName(path)| {
            assert name[i] == PathName(path)[i];
          } else {
            assert name[i] == ".zip"[i - |PathName(path)|];
          }
        }
      }
    }
    assert name != "." by {
      assert |name| >= 4;
    }
    NameOfJoin(outputDir, name);
  }

  // ---------------------------------------------------------------------------------------------------
  // Input paths

  /** `input_path.replace('\\', '/').replace('/', os.sep)`. */
  function NormalizeInputPath(p: string, sep: char): string
  {
    ReplaceChar(ReplaceChar(p, '\\', '/'), '/', sep)
  }

  /** Both separators become `sep`, one for one, and nothing else changes; so on POSIX, where `sep`
      is `/`, no backslash is left and normalising twice changes nothing more. */
  lemma NormalizeExact(p: string, sep: char)
    ensures var r := NormalizeInputPath(p, sep);
      && |r| == |p|
      && (forall i :: 0 <= i < |p| ==> r[i] == if p[i] == '\\' || p[i] == '/' then sep else p[i])
      && (sep == '/' ==> '\\' !in r && NormalizeInputPath(r, sep) == r)
  {
    var r := NormalizeInputPath(p, sep);
    if sep == '/' {
      var q := NormalizeInputPath(r, sep);
      assert |q| == |r|;
      forall i | 0 <= i < |r|
        ensures q[i] == r[i]
      {
      }
      assert q == r;
    }
  }
}
