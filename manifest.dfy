/** The summary `create_manifest_file` writes about the archives of the working directory: one checksum
    per `.zip` file directly in it, and their total size (backup.py:230-242). The timestamp, read from
    the clock, and the JSON encoding are not modelled. */
module Manifest {
  import opened Base
  import opened Text
  import opened FileSystem
  import opened Crc
  import opened Hex

  /** The default `chunksize` of `_calculate_checksum`. */
  const ChunkSize := 65536

  datatype Summary = Summary(checksums: map<string, string>, size: nat)

  /** The files of the listing whose joined path ends in `.zip` (`zipfiles`). */
  function ZipNames(dir: string, es: map<string, Node>): set<string>
  {
    set name | name in Files(es) && EndsWith(JoinPath(dir, name), ".zip")
  }

  /** The total byte length of the named files (the `sum` of `os.path.getsize`). */
  ghost function SumSizes(es: map<string, Node>, names: set<string>): nat
    requires forall name :: name in names ==> name in es
    decreases names
  {
    if names == {} then 0
    else
      var name :| name in names;
      Size(es[name]) + SumSizes(es, names - {name})
  }

  function Size(n: Node): nat
  {
    if n.File? then |n.content| else 0
  }

  /** The summary of a directory `dir` whose listing is `es`. */
  ghost function BuildManifest(dir: string, es: map<string, Node>): Summary
  {
    var zips := ZipNames(dir, es);
    Summary(map name | name in zips :: Checksum(es[name].content, ChunkSize), SumSizes(es, zips))
  }

  /** Joining a directory in front does not change whether a name ends in `.zip`: the separator is not
      part of the suffix. */
  lemma JoinEndsWithZip(dir: string, name: string)
    ensures EndsWith(JoinPath(dir, name), ".zip") <==> EndsWith(name, ".zip")
  {
    var j := JoinPath(dir, name);
    if !StartsWith(name, "/") && dir != [] {
      var prefix := if EndsWith(dir, "/") then dir else dir + "/";
      assert j == prefix + name;
      assert prefix[|prefix| - 1] == '/';
      if |name| >= 4 {
        assert j[|j| - 4..] == name[|name| - 4..];
      } else if |j| >= 4 {
        assert j[|j| - 4..][3 - |name|] == '/';
        assert ".zip"[3 - |name|] != '/';
      }
    }
  }

  /** The checksums are keyed by exactly the regular files directly in the directory whose names end
      in `.zip`; sub-directories and other files are left out. */
  lemma ManifestKeys(dir: string, es: map<string, Node>, name: string)
    ensures name in BuildManifest(dir, es).checksums <==> name in es && es[name].File? && EndsWith(name, ".zip")
  {
    JoinEndsWithZip(dir, name);
  }

  /** The key the script computes, `Path(f).name` of the joined path, is the entry's own name. */
  lemma ManifestKeyIsName(dir: string, es: map<string, Node>, name: string)
    requires WellFormed(Dir(es)) && name in ZipNames(dir, es) && name != "."
    ensures PathName(JoinPath(dir, name)) == name
  {
    assert ValidName(name);
    NameOfJoin(dir, name);
  }

  /** Each checksum is `hex()` of the CRC-32 of the whole file. */
  lemma ManifestChecksum(dir: string, es: map<string, Node>, name: string)
    requires name in BuildManifest(dir, es).checksums
    ensures BuildManifest(dir, es).checksums[name] == PyHex(Crc32(es[name].content, 0) as nat)
  {
  }

  /** The size is the sum of the sizes of the archives, and the sum does not depend on the order in
      which the listing is added up: removing any one archive leaves the sum of the others. */
  lemma {:induction false} SumSizesRemove(es: map<string, Node>, names: set<string>, x: string)
    requires forall name :: name in names ==> name in es
    requires x in names
    ensures SumSizes(es, names) == Size(es[x]) + SumSizes(es, names - {x})
    decreases names
  {
    var y :| y in names && SumSizes(es, names) == Size(es[y]) + SumSizes(es, names - {y});
    if y != x {
      SumSizesRemove(es, names - {y}, x);
      SumSizesRemove(es, names - {x}, y);
      assert names - {y} - {x} == names - {x} - {y};
    }
  }

  /** Adding one more archive adds its size. */
  lemma ManifestSizeInsert(es: map<string, Node>, names: set<string>, x: string)
    requires forall name :: name in names ==> name in es
    requires x in es && x !in names
    ensures SumSizes(es, names + {x}) == SumSizes(es, names) + Size(es[x])
  {
    SumSizesRemove(es, names + {x}, x);
    assert names + {x} - {x} == names;
  }

  /** A directory without archives has the empty summary. */
  lemma ManifestEmpty(dir: string, es: map<string, Node>)
    requires forall name :: name in es ==> !EndsWith(name, ".zip")
    ensures BuildManifest(dir, es) == Summary(map[], 0)
  {
    forall name | name in Files(es) ensures !EndsWith(JoinPath(dir, name), ".zip") {
      JoinEndsWithZip(dir, name);
    }
    assert ZipNames(dir, es) == {};
  }
}
