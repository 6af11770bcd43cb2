/** The in-memory manifest of src/manifest.loader.ts: files keyed by path
    in insertion order, digest updates that mark the manifest dirty and arm
    a one-shot write timer, filtering, and serialisation. */
module ManifestStore {
  import opened Results
  import opened ManifestTypes

  predicate Distinct<T(==)>(s: seq<T>)
  {
    forall i, j :: 0 <= i < j < |s| ==> s[i] != s[j]
  }

  function Paths(files: seq<ManifestFile>): (ps: seq<string>)
    ensures |ps| == |files|
  {
    seq(|files|, i requires 0 <= i < |files| => files[i].path)
  }

  /** The map that `files.set(file.path, file)` builds over a list, in turn:
      the last entry with a given path wins. */
  function IndexByPath(files: seq<ManifestFile>): map<string, ManifestFile>
  {
    if files == [] then map[]
    else IndexByPath(files[..|files| - 1])[files[|files| - 1].path := files[|files| - 1]]
  }

  /** The key order of that map: a JavaScript `Map` keeps each key at the
      position of its first insertion. */
  function InsertionOrder(files: seq<ManifestFile>): seq<string>
  {
    if files == [] then []
    else
      var order := InsertionOrder(files[..|files| - 1]);
      if files[|files| - 1].path in order then order else order + [files[|files| - 1].path]
  }

  /** The map's values in key order (`files.values()`). */
  function ValuesInOrder(files: map<string, ManifestFile>, order: seq<string>): (vs: seq<ManifestFile>)
    requires forall p :: p in order ==> p in files
    ensures |vs| == |order|
  {
    if order == [] then []
    else ValuesInOrder(files, order[..|order| - 1]) + [files[order[|order| - 1]]]
  }

  /** A path-keyed file map with its key order: the order lists each key
      once, and every file sits under its own path. */
  ghost predicate WellFormed(files: map<string, ManifestFile>, order: seq<string>)
  {
    (forall p :: p in files <==> p in order) &&
    Distinct(order) &&
    (forall p :: p in files ==> files[p].path == p)
  }

  /** Building from a list: the keys are exactly the list's paths, and the
      key order lists them once each. */
  lemma {:induction false} IndexByPathShape(files: seq<ManifestFile>)
    ensures forall p :: p in IndexByPath(files) <==> p in Paths(files)
    ensures forall p :: p in IndexByPath(files) <==> p in InsertionOrder(files)
    ensures WellFormed(IndexByPath(files), InsertionOrder(files))
  {
    if files != [] {
      var init := files[..|files| - 1];
      IndexByPathShape(init);
      assert Paths(files) == Paths(init) + [files[|files| - 1].path];
    }
  }

  /** Each key maps to the last entry with that path. */
  lemma {:induction false} IndexByPathLastWins(files: seq<ManifestFile>, i: nat)
    requires i < |files|
    requires forall j :: i < j < |files| ==> files[j].path != files[i].path
    ensures files[i].path in IndexByPath(files) && IndexByPath(files)[files[i].path] == files[i]
  {
    var last := |files| - 1;
    if i < last {
      IndexByPathLastWins(files[..last], i);
    }
  }

  /** When no path repeats, the key order is the list's order. */
  lemma {:induction false} InsertionOrderOfDistinct(files: seq<ManifestFile>)
    requires Distinct(Paths(files))
    ensures InsertionOrder(files) == Paths(files)
  {
    if files != [] {
      var init := files[..|files| - 1];
      var last := files[|files| - 1].path;
      assert Paths(files) == Paths(init) + [last];
      assert Distinct(Paths(init)) by {
        forall i, j | 0 <= i < j < |init| ensures Paths(init)[i] != Paths(init)[j] {
          assert Paths(init)[i] == Paths(files)[i] && Paths(init)[j] == Paths(files)[j];
        }
      }
      InsertionOrderOfDistinct(init);
      assert last !in Paths(init) by {
        forall i | 0 <= i < |init| ensures Paths(init)[i] != last {
          assert Paths(files)[i] == Paths(init)[i] && Paths(files)[|files| - 1] == last;
        }
      }
    }
  }

  /** The values read in order depend only on the entries the order names. */
  lemma {:induction false} ValuesInOrderAgree(a: map<string, ManifestFile>, b: map<string, ManifestFile>, order: seq<string>)
    requires forall p :: p in order ==> p in a && p in b && a[p] == b[p]
    ensures ValuesInOrder(a, order) == ValuesInOrder(b, order)
  {
    if order != [] {
      ValuesInOrderAgree(a, b, order[..|order| - 1]);
    }
  }

  /** Dropping the last key of a well-formed map leaves a well-formed map. */
  lemma WellFormedDropLast(files: map<string, ManifestFile>, order: seq<string>)
    requires WellFormed(files, order) && order != []
    ensures order[|order| - 1] !in order[..|order| - 1]
    ensures WellFormed(files - {order[|order| - 1]}, order[..|order| - 1])
  {
    var n := |order| - 1;
    var init, last := order[..n], order[n];
    forall p | p in init ensures p != last && p in files {
      var j :| 0 <= j < n && init[j] == p;
      assert order[j] == p;
    }
    forall p | p in order && p != last ensures p in init {
      var j :| 0 <= j < |order| && order[j] == p;
      assert init[j] == p;
    }
  }

  /** Removing a key and putting its entry back gives the same map. */
  lemma RestoreKey(m: map<string, ManifestFile>, k: string)
    requires k in m
    ensures m == (m - {k})[k := m[k]]
  {
    var r := (m - {k})[k := m[k]];
    assert forall p :: p in m <==> p in r;
    assert forall p :: p in m ==> m[p] == r[p];
  }

  /** Re-loading what `toJson` wrote gives back the same map and key order. */
  lemma {:induction false} ReloadRoundTrip(files: map<string, ManifestFile>, order: seq<string>)
    requires WellFormed(files, order)
    ensures IndexByPath(ValuesInOrder(files, order)) == files
    ensures InsertionOrder(ValuesInOrder(files, order)) == order
  {
    if order == [] {
      assert files == map[];
    } else {
      var n := |order| - 1;
      var init, last := order[..n], order[n];
      var rest := files - {last};
      WellFormedDropLast(files, order);
      ReloadRoundTrip(rest, init);
      ValuesInOrderAgree(files, rest, init);
      var values := ValuesInOrder(files, order);
      var prior := ValuesInOrder(rest, init);
      assert values == prior + [files[last]];
      assert values[..n] == prior && values[n] == files[last];
      assert files[last].path == last;
      assert IndexByPath(values) == IndexByPath(prior)[last := files[last]];
      RestoreKey(files, last);
      assert last !in InsertionOrder(prior);
      assert InsertionOrder(values) == InsertionOrder(prior) + [last];
      assert order == init + [last];
    }
  }

  /** A loaded manifest (`ManifestLoader`). `files` and `order` together
      are the JavaScript `Map`; `dirtyTimeoutArmed` stands for a non-null
      `_dirtyTimeout`, and `timersArmed` counts the timers ever armed. */
  class ManifestLoader {
    var files: map<string, ManifestFile>
    var order: seq<string>
    var isDirty: bool
    var path: string
    var sourcePath: string
    var dirtyTimeoutArmed: bool
    ghost var timersArmed: nat

    ghost predicate Valid()
      reads this
    {
      WellFormed(files, order) &&
      timersArmed == (if dirtyTimeoutArmed then 1 else 0) &&
      (dirtyTimeoutArmed ==> isDirty)
    }

    /** The files in map order (`this.files.values()`). */
    function Values(): seq<ManifestFile>
      reads this
      requires Valid()
    {
      ValuesInOrder(files, order)
    }

    /** `new ManifestLoader(sourcePath, manifest)` (src/manifest.loader.ts:12-16). */
    constructor (sourcePath: string, manifest: Manifest)
      ensures Valid()
      ensures files == IndexByPath(manifest.files) && order == InsertionOrder(manifest.files)
      ensures this.path == manifest.path && this.sourcePath == sourcePath
      ensures !isDirty && !dirtyTimeoutArmed && timersArmed == 0
    {
      var index: map<string, ManifestFile> := map[];
      var keys: seq<string> := [];
      for i := 0 to |manifest.files|
        invariant index == IndexByPath(manifest.files[..i])
        invariant keys == InsertionOrder(manifest.files[..i])
      {
        assert manifest.files[..i + 1][..i] == manifest.files[..i];
        IndexByPathShape(manifest.files[..i]);
        var file := manifest.files[i];
        if file.path !in index {
          keys := keys + [file.path];
        }
        index := index[file.path := file];
      }
      assert manifest.files[..|manifest.files|] == manifest.files;
      IndexByPathShape(manifest.files);
      files, order := index, keys;
      isDirty := false;
      this.path := manifest.path;
      this.sourcePath := sourcePath;
      dirtyTimeoutArmed := false;
      timersArmed := 0;
    }

    /** `dirty()` (src/manifest.loader.ts:45-53): set the flag and arm the
        write timer unless one is already armed; it is never cleared, so at
        most one timer is ever armed. */
    method Dirty()
      requires Valid()
      modifies this`isDirty, this`dirtyTimeoutArmed, this`timersArmed
      ensures Valid() && isDirty && dirtyTimeoutArmed
      ensures timersArmed == 1
      ensures old(dirtyTimeoutArmed) ==> timersArmed == old(timersArmed)
    {
      isDirty := true;
      if dirtyTimeoutArmed { return; }
      dirtyTimeoutArmed := true;
      timersArmed := timersArmed + 1;
    }

    /** `setHash(path, hash)` (src/manifest.loader.ts:27-34). An unknown path
        is an error that changes nothing; an unchanged digest changes
        nothing; otherwise only that file's digest changes and the manifest
        becomes dirty. */
    method SetHash(path: string, hash: string) returns (error: Option<string>)
      requires Valid()
      modifies this`files, this`isDirty, this`dirtyTimeoutArmed, this`timersArmed
      ensures Valid()
      ensures path !in old(files) ==> error == Some("File not found: " + path) && unchanged(this)
      ensures path in old(files) && old(files)[path].hash == Some(hash) ==> error == None && unchanged(this)
      ensures path in old(files) && old(files)[path].hash != Some(hash) ==>
        error == None &&
        files == old(files)[path := old(files)[path].(hash := Some(hash))] &&
        isDirty && dirtyTimeoutArmed &&
        (old(dirtyTimeoutArmed) ==> timersArmed == old(timersArmed))
      ensures order == old(order) && this.path == old(this.path) && sourcePath == old(sourcePath)
    {
      if path !in files {
        return Some("File not found: " + path);
      }
      var file := files[path];
      if file.hash == Some(hash) {
        return None;
      }
      files := files[path := file.(hash := Some(hash))];
      Dirty();
      return None;
    }

    /** `filter(f)` (src/manifest.loader.ts:36-42): the accepted files, in map order. */
    method Filter(keep: ManifestFile -> bool) returns (output: seq<ManifestFile>)
      requires Valid()
      ensures output == ManifestTypes.Filter(Values(), keep)
      ensures forall f :: f in output <==> f in Values() && keep(f)
    {
      output := [];
      for i := 0 to |order|
        invariant output == ManifestTypes.Filter(ValuesInOrder(files, order[..i]), keep)
      {
        assert order[..i + 1][..i] == order[..i];
        var file := files[order[i]];
        assert ValuesInOrder(files, order[..i + 1]) == ValuesInOrder(files, order[..i]) + [file];
        if keep(file) {
          output := output + [file];
        }
      }
      assert order[..|order|] == order;
      forall f ensures f in output <==> f in Values() && keep(f) {
        FilterMembership(Values(), keep, f);
      }
    }

    /** `toJson()` (src/manifest.loader.ts:55-67): the root path, the files
        in map order and their total size. No correlation id is written. */
    method ToJson() returns (m: Manifest)
      requires Valid()
      ensures m.path == path && m.files == Values() && m.correlationId == None
      ensures m.size == TotalSize(m.files)
      ensures IndexByPath(m.files) == files && InsertionOrder(m.files) == order
    {
      var out: seq<ManifestFile> := [];
      var size := 0;
      for i := 0 to |order|
        invariant out == ValuesInOrder(files, order[..i])
        invariant size == TotalSize(out)
      {
        assert order[..i + 1][..i] == order[..i];
        var file := files[order[i]];
        assert (out + [file])[..|out|] == out;
        out := out + [file];
        size := size + file.size;
      }
      assert order[..|order|] == order;
      ReloadRoundTrip(files, order);
      m := Manifest(path, size, None, out);
    }
  }

  // ---------------------------------------------------------------------------
  // isManifestsDifferent, as its test (src/__test__/manifest.loader.test.ts)
  // pins it down; its implementation is not part of the loader shown.

  /** The reference file at `p` is missing from the candidate, has another
      size there, or has a digest that the candidate's differs from when both
      are set. */
  predicate FileDiffers(candidate: map<string, ManifestFile>, reference: map<string, ManifestFile>, p: string)
    requires p in reference
  {
    p !in candidate ||
    candidate[p].size != reference[p].size ||
    (candidate[p].hash.Some? && reference[p].hash.Some? && candidate[p].hash != reference[p].hash)
  }

  /** `isManifestsDifferent(candidate, reference)` over the two loaders' file maps. */
  predicate IsManifestsDifferent(candidate: map<string, ManifestFile>, reference: map<string, ManifestFile>)
  {
    exists p :: p in reference && FileDiffers(candidate, reference, p)
  }

  /** A candidate holding every reference file unchanged, and possibly more,
      is not different; in particular a manifest is not different from itself. */
  lemma SupersetIsNotDifferent(candidate: map<string, ManifestFile>, reference: map<string, ManifestFile>)
    requires forall p :: p in reference ==> p in candidate && candidate[p] == reference[p]
    ensures !IsManifestsDifferent(candidate, reference)
  {
  }

  /** A candidate whose digests are unset is compared on presence and size only. */
  lemma UnsetCandidateHashIsNotDifferent(candidate: map<string, ManifestFile>, reference: map<string, ManifestFile>)
    requires forall p :: p in reference ==> p in candidate && candidate[p].size == reference[p].size
    requires forall p :: p in candidate ==> candidate[p].hash.None?
    ensures !IsManifestsDifferent(candidate, reference)
  {
  }

  /** One reference file that is missing, resized or re-hashed in the
      candidate makes the manifests different. */
  lemma OneChangedFileIsDifferent(candidate: map<string, ManifestFile>, reference: map<string, ManifestFile>, p: string)
    requires p in reference
    requires p !in candidate || candidate[p].size != reference[p].size ||
             (candidate[p].hash.Some? && reference[p].hash.Some? && candidate[p].hash != reference[p].hash)
    ensures IsManifestsDifferent(candidate, reference)
  {
  }

  /** A file as the loader tests describe it: a size of zero or none means
      "the length of the path", a digest of "empty" means unset, and no
      digest means "the path itself". */
  datatype TestFile = TestFile(path: string, size: Option<nat>, hash: Option<string>)

  function TestManifestFile(t: TestFile): (f: ManifestFile)
    ensures f.path == t.path
    ensures f.size > 0 || t.path == []
    ensures f.hash.None? <==> t.hash == Some("empty")
  {
    var size := if t.size.Some? && t.size.value != 0 then t.size.value else |t.path|;
    var hash := if t.hash == Some("empty") then None
                else if t.hash.Some? && t.hash.value != "" then t.hash
                else Some(t.path);
    ManifestFile(t.path, size, hash)
  }

  function TestFiles(ts: seq<TestFile>): (fs: seq<ManifestFile>)
    ensures |fs| == |ts|
  {
    if ts == [] then [] else TestFiles(ts[..|ts| - 1]) + [TestManifestFile(ts[|ts| - 1])]
  }

  function TestIndex(ts: seq<TestFile>): map<string, ManifestFile>
  {
    IndexByPath(TestFiles(ts))
  }

  lemma TestIndexOne(t: TestFile)
    ensures TestIndex([t]) == map[t.path := TestManifestFile(t)]
  {
    assert [t][..0] == [];
    var fs := TestFiles([t]);
    assert fs == [TestManifestFile(t)];
    assert fs[..0] == [];
    assert IndexByPath(fs) == IndexByPath([])[TestManifestFile(t).path := TestManifestFile(t)];
  }

  lemma TestIndexTwo(t: TestFile, u: TestFile)
    ensures TestIndex([t, u]) == map[t.path := TestManifestFile(t)][u.path := TestManifestFile(u)]
  {
    assert [t, u][..1] == [t];
    TestIndexOne(t);
    var fs := TestFiles([t, u]);
    assert fs[..1] == TestFiles([t]);
  }

  /** The paths the loader tests use. */
  const Canterbury: string := "RGBi Imagery/RGBI_Canterbury 0.3m Rural Aerial Photos (2015-16)/RGBI_BX16_5K_0607.tif"
  const Otago1: string := "RGBi_otago_rural_2017-2019_0.3m/2018_BZ13_5000_0901.tif"
  const Otago2: string := "RGBi_otago_rural_2017-2019_0.3m/2018_BZ13_5000_0902.tif"

  /** The manifests A to F of the loader tests, as path indexes. */
  const ManifestA: map<string, ManifestFile> := TestIndex([TestFile(Canterbury, None, None)])
  const ManifestB: map<string, ManifestFile> := TestIndex([TestFile(Otago1, None, None)])
  const ManifestC: map<string, ManifestFile> := TestIndex([TestFile(Otago1, None, None), TestFile(Otago2, None, None)])
  const ManifestD: map<string, ManifestFile> := TestIndex([TestFile(Otago1, Some(123), None)])
  const ManifestE: map<string, ManifestFile> := TestIndex([TestFile(Otago1, Some(123), Some("abc"))])
  const ManifestF: map<string, ManifestFile> := TestIndex([TestFile(Otago1, Some(123), Some("empty"))])

  lemma TestPathsDistinct()
    ensures Canterbury != Otago1 && Otago1 != Otago2
  {
    assert |Canterbury| != |Otago1|;
    assert Otago1[|Otago1| - 5] != Otago2[|Otago2| - 5];
  }

  /** A and B hold different files: A is different from B. */
  lemma DifferentFilesDiffer()
    ensures IsManifestsDifferent(ManifestA, ManifestB)
  {
    TestIndexOne(TestFile(Canterbury, None, None));
    TestIndexOne(TestFile(Otago1, None, None));
    TestPathsDistinct();
    OneChangedFileIsDifferent(ManifestA, ManifestB, Otago1);
  }

  /** A is not different from itself. */
  lemma SameManifestNotDifferent()
    ensures !IsManifestsDifferent(ManifestA, ManifestA)
  {
    SupersetIsNotDifferent(ManifestA, ManifestA);
  }

  /** C holds B's file and one more: C is not different from B. */
  lemma AdditionalFileNotDifferent()
    ensures !IsManifestsDifferent(ManifestC, ManifestB)
  {
    TestIndexOne(TestFile(Otago1, None, None));
    TestIndexTwo(TestFile(Otago1, None, None), TestFile(Otago2, None, None));
    TestPathsDistinct();
    SupersetIsNotDifferent(ManifestC, ManifestB);
  }

  /** D holds B's path with another size: B is different from D. */
  lemma ChangedSizeDiffers()
    ensures IsManifestsDifferent(ManifestB, ManifestD)
  {
    TestIndexOne(TestFile(Otago1, None, None));
    TestIndexOne(TestFile(Otago1, Some(123), None));
    assert ManifestB[Otago1].size == |Otago1| != 123;
    OneChangedFileIsDifferent(ManifestB, ManifestD, Otago1);
  }

  /** E holds D's path and size with another digest: D is different from E. */
  lemma ChangedHashDiffers()
    ensures IsManifestsDifferent(ManifestD, ManifestE)
  {
    TestIndexOne(TestFile(Otago1, Some(123), None));
    TestIndexOne(TestFile(Otago1, Some(123), Some("abc")));
    assert ManifestD[Otago1].hash == Some(Otago1) && ManifestE[Otago1].hash == Some("abc");
    OneChangedFileIsDifferent(ManifestD, ManifestE, Otago1);
  }

  /** F's file has no digest: F is not different from E although E's has one. */
  lemma UnsetHashNotDifferent()
    ensures !IsManifestsDifferent(ManifestF, ManifestE)
  {
    TestIndexOne(TestFile(Otago1, Some(123), Some("abc")));
    TestIndexOne(TestFile(Otago1, Some(123), Some("empty")));
    UnsetCandidateHashIsNotDifferent(ManifestF, ManifestE);
  }
}
