/** The `create-manifest` command (src/commands/manifest.ts): walk a
    directory tree, record every file with its size, and name the manifest
    after the input path. Paths use the POSIX separator. */
module CreateManifest {
  import opened Results
  import opened Strings
  import opened ManifestTypes

  /** A directory entry as `readdir` lists it: a file, or a directory with
      its own entries, in listing order. */
  datatype Entry = File(name: string) | Directory(name: string, children: seq<Entry>)

  const Sep: char := '/'

  /** `path.join(...segments)` for plain entry names. */
  function JoinPath(segments: seq<string>): string
  {
    Join(segments, [Sep])
  }

  /** The number of files (non-directories) anywhere below `entries`. */
  function FileCount(entries: seq<Entry>): nat
    decreases entries
  {
    if entries == [] then 0
    else
      (match entries[0]
        case File(_) => 1
        case Directory(_, children) => FileCount(children)) + FileCount(entries[1..])
  }

  /** `parseDirectory(basePath, currentPath)` (src/commands/manifest.ts:8-19):
      depth first, in listing order, every file's path relative to the base;
      directories themselves are not yielded. */
  function ParseDirectory(entries: seq<Entry>, currentPath: seq<string>): (paths: seq<string>)
    ensures |paths| == FileCount(entries)
    decreases entries
  {
    if entries == [] then []
    else
      (match entries[0]
        case Directory(name, children) => ParseDirectory(children, currentPath + [name])
        case File(name) => [JoinPath(currentPath + [name])]) + ParseDirectory(entries[1..], currentPath)
  }

  /** `names` leads from `entries` through directories to a file. */
  ghost predicate IsFileIn(entries: seq<Entry>, names: seq<string>)
    decreases entries
  {
    |names| >= 1 &&
    exists i :: 0 <= i < |entries| && entries[i].name == names[0] &&
      (if |names| == 1 then entries[i].File?
       else entries[i].Directory? && IsFileIn(entries[i].children, names[1..]))
  }

  /** Every path `ParseDirectory` yields is the joined name chain of a file
      in the tree, under the current path. */
  lemma {:induction false} ParseDirectorySound(entries: seq<Entry>, currentPath: seq<string>, k: nat)
    requires k < |ParseDirectory(entries, currentPath)|
    ensures exists names ::
      IsFileIn(entries, names) && ParseDirectory(entries, currentPath)[k] == JoinPath(currentPath + names)
    decreases entries
  {
    var first := match entries[0]
      case Directory(name, children) => ParseDirectory(children, currentPath + [name])
      case File(name) => [JoinPath(currentPath + [name])];
    var rest := ParseDirectory(entries[1..], currentPath);
    assert ParseDirectory(entries, currentPath) == first + rest;
    var names;
    if k < |first| {
      match entries[0]
      case File(name) =>
        names := [name];
        IsFileInFirst(entries);
      case Directory(name, children) =>
        ParseDirectorySound(children, currentPath + [name], k);
        var inner :| IsFileIn(children, inner) && first[k] == JoinPath(currentPath + [name] + inner);
        names := [name] + inner;
        IsFileInDirectory(entries, inner);
        AppendAssoc(currentPath, [name], inner);
    } else {
      ParseDirectorySound(entries[1..], currentPath, k - |first|);
      names :| IsFileIn(entries[1..], names) && rest[k - |first|] == JoinPath(currentPath + names);
      IsFileInLater(entries, names);
    }
    assert IsFileIn(entries, names) && ParseDirectory(entries, currentPath)[k] == JoinPath(currentPath + names);
  }

  /** Every file in the tree is yielded: its joined name chain under the
      current path is among the paths `ParseDirectory` returns. */
  lemma {:induction false} ParseDirectoryComplete(entries: seq<Entry>, currentPath: seq<string>, names: seq<string>)
    requires IsFileIn(entries, names)
    ensures JoinPath(currentPath + names) in ParseDirectory(entries, currentPath)
    decreases entries
  {
    var first := match entries[0]
      case Directory(name, children) => ParseDirectory(children, currentPath + [name])
      case File(name) => [JoinPath(currentPath + [name])];
    var rest := ParseDirectory(entries[1..], currentPath);
    assert ParseDirectory(entries, currentPath) == first + rest;
    var i :| 0 <= i < |entries| && entries[i].name == names[0] &&
      (if |names| == 1 then entries[i].File?
       else entries[i].Directory? && IsFileIn(entries[i].children, names[1..]));
    if i == 0 {
      if |names| == 1 {
        assert names == [entries[0].name];
        assert first == [JoinPath(currentPath + names)];
      } else {
        var children := entries[0].children;
        ParseDirectoryComplete(children, currentPath + [names[0]], names[1..]);
        AppendAssoc(currentPath, [names[0]], names[1..]);
        assert [names[0]] + names[1..] == names;
        assert JoinPath(currentPath + names) in first;
      }
    } else {
      assert entries[1..][i - 1] == entries[i];
      assert IsFileIn(entries[1..], names);
      ParseDirectoryComplete(entries[1..], currentPath, names);
      assert JoinPath(currentPath + names) in rest;
    }
  }

  lemma AppendAssoc(a: seq<string>, b: seq<string>, c: seq<string>)
    ensures a + b + c == a + (b + c)
  {
  }

  /** The first entry, when it is a file, is in the listing. */
  lemma IsFileInFirst(entries: seq<Entry>)
    requires entries != [] && entries[0].File?
    ensures IsFileIn(entries, [entries[0].name])
  {
    assert entries[0].name == [entries[0].name][0];
  }

  /** A file below the first directory entry is in the listing. */
  lemma IsFileInDirectory(entries: seq<Entry>, names: seq<string>)
    requires entries != [] && entries[0].Directory? && IsFileIn(entries[0].children, names)
    ensures IsFileIn(entries, [entries[0].name] + names)
  {
    assert ([entries[0].name] + names)[1..] == names;
  }

  /** A file in the later entries is in the listing. */
  lemma IsFileInLater(entries: seq<Entry>, names: seq<string>)
    requires entries != [] && IsFileIn(entries[1..], names)
    ensures IsFileIn(entries, names)
  {
    var i :| 0 <= i < |entries[1..]| && entries[1..][i].name == names[0] &&
      (if |names| == 1 then entries[1..][i].File?
       else entries[1..][i].Directory? && IsFileIn(entries[1..][i].children, names[1..]));
    assert entries[i + 1] == entries[1..][i];
  }

  /** `fs.stat` size of the file at a path relative to the base. */
  type SizeOracle = string -> nat

  /** The manifest entries for a list of paths, each with its stat size and no digest. */
  function StatFiles(paths: seq<string>, sizeOf: SizeOracle): (files: seq<ManifestFile>)
    ensures |files| == |paths|
    ensures forall i :: 0 <= i < |paths| ==> files[i] == ManifestFile(paths[i], sizeOf(paths[i]), None)
  {
    seq(|paths|, i requires 0 <= i < |paths| => ManifestFile(paths[i], sizeOf(paths[i]), None))
  }

  /** Stat-ing one more path appends its entry. */
  lemma StatFilesStep(paths: seq<string>, i: nat, sizeOf: SizeOracle)
    requires i < |paths|
    ensures StatFiles(paths[..i + 1], sizeOf) == StatFiles(paths[..i], sizeOf) + [ManifestFile(paths[i], sizeOf(paths[i]), None)]
  {
    var a := StatFiles(paths[..i + 1], sizeOf);
    var b := StatFiles(paths[..i], sizeOf) + [ManifestFile(paths[i], sizeOf(paths[i]), None)];
    assert |a| == |b|;
    forall j | 0 <= j < |a| ensures a[j] == b[j] {
      assert paths[..i + 1][j] == paths[j];
    }
  }

  /** `s` with every `from` replaced by `to` (a global regular-expression replace). */
  function ReplaceChar(s: string, from: char, to: char): (r: string)
    ensures |r| == |s|
    ensures from != to ==> from !in r
    ensures forall i :: 0 <= i < |s| ==> r[i] == (if s[i] == from then to else s[i])
  {
    seq(|s|, i requires 0 <= i < |s| => if s[i] == from then to else s[i])
  }

  /** The character the manifest name uses in place of `c`. */
  function Sanitize(c: char): char
  {
    if c == Sep || c == ' ' then '_' else c
  }

  const ManifestSuffix: string := ".manifest.json"

  /** Whether the name drops a leading separator of `s` (1) or not (0). */
  function LeadSeps(s: string): (n: nat)
    ensures n <= 1 && n <= |s|
    ensures n == 1 <==> |s| > 0 && s[0] == Sep
  {
    if StartsWith(s, [Sep]) then 1 else 0
  }

  /** Whether the name then drops a trailing separator (1) or not (0). */
  function TrailSeps(s: string): (n: nat)
    ensures n <= 1 && LeadSeps(s) + n <= |s|
    ensures n == 1 <==> LeadSeps(s) < |s| && s[|s| - 1] == Sep
  {
    var rest := s[LeadSeps(s)..];
    if EndsWith(rest, [Sep]) then 1 else 0
  }

  /** The manifest file name derived from the input path
      (src/commands/manifest.ts:53-56): one leading separator removed if
      there is one, then one trailing separator removed if there is one,
      every remaining separator and space turned into `_`, and
      `.manifest.json` appended. */
  function ManifestName(inputFile: string): (name: string)
    ensures EndsWith(name, ManifestSuffix)
    ensures |name| == |inputFile| - LeadSeps(inputFile) - TrailSeps(inputFile) + |ManifestSuffix|
    ensures forall i :: 0 <= i < |name| - |ManifestSuffix| ==>
      name[i] == Sanitize(inputFile[LeadSeps(inputFile) + i])
    ensures Sep !in name[..|name| - |ManifestSuffix|] && ' ' !in name[..|name| - |ManifestSuffix|]
  {
    var name := inputFile;
    var name := if StartsWith(name, [Sep]) then name[1..] else name;
    var name := if EndsWith(name, [Sep]) then name[..|name| - 1] else name;
    var stem := ReplaceChar(ReplaceChar(name, Sep, '_'), ' ', '_');
    assert (stem + ManifestSuffix)[..|stem|] == stem;
    stem + ManifestSuffix
  }

  /** A name with no separator or space is kept as it is. */
  lemma ManifestNameOfPlainName(inputFile: string)
    requires Sep !in inputFile && ' ' !in inputFile
    ensures ManifestName(inputFile) == inputFile + ManifestSuffix
  {
    assert !StartsWith(inputFile, [Sep]) by {
      if |inputFile| > 0 { assert inputFile[0] != Sep; }
    }
    assert !EndsWith(inputFile, [Sep]) by {
      if |inputFile| > 0 { assert inputFile[|inputFile| - 1] != Sep; }
    }
    ReplaceAbsent(inputFile, Sep, '_');
    ReplaceAbsent(inputFile, ' ', '_');
  }

  /** Replacing a character that does not occur changes nothing. */
  lemma ReplaceAbsent(s: string, from: char, to: char)
    requires from !in s
    ensures ReplaceChar(s, from, to) == s
  {
    var r := ReplaceChar(s, from, to);
    assert forall i :: 0 <= i < |s| ==> r[i] == s[i];
  }

  datatype Created = Created(fileName: string, manifest: Manifest)

  /** `CreateManifest.run` (src/commands/manifest.ts:28-59) without its
      logging: `inputPath` is the resolved input path and `root` what it
      names on disk. A non-directory gives no manifest; a directory gives
      one entry per file in traversal order, with the total size. */
  method Run(inputFile: string, inputPath: string, root: Entry, sizeOf: SizeOracle)
    returns (created: Option<Created>)
    ensures created.None? <==> root.File?
    ensures created.Some? ==>
      var paths := ParseDirectory(root.children, []);
      var m := created.value.manifest;
      m.path == inputPath && m.correlationId == None &&
      m.files == StatFiles(paths, sizeOf) &&
      |m.files| == FileCount(root.children) &&
      m.size == TotalSize(m.files) &&
      created.value.fileName == ManifestName(inputFile)
  {
    if root.File? {
      return None;
    }
    var manifest := Manifest(inputPath, 0, None, []);
    var paths := ParseDirectory(root.children, []);
    for i := 0 to |paths|
      invariant manifest.path == inputPath && manifest.correlationId == None
      invariant manifest.files == StatFiles(paths[..i], sizeOf)
      invariant manifest.size == TotalSize(manifest.files)
    {
      var fileName := paths[i];
      var size := sizeOf(fileName);
      var files := manifest.files + [ManifestFile(fileName, size, None)];
      StatFilesStep(paths, i, sizeOf);
      assert files[..|files| - 1] == manifest.files;
      manifest := manifest.(size := manifest.size + size, files := files);
    }
    assert paths[..|paths|] == paths;
    var manifestName := ManifestName(inputFile);
    return Some(Created(manifestName, manifest));
  }
}
