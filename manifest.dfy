/** The manifest records of src/manifest.ts, and the two folds over file
    lists that the rest of the tool repeats: summing sizes and keeping the
    entries a predicate accepts, in order. */
module ManifestTypes {
  import opened Results

  /** One file: its path relative to the manifest root, its size in bytes and,
      once computed, its content digest. */
  datatype ManifestFile = ManifestFile(path: string, size: nat, hash: Option<string>)

  /** A serialised manifest. `size` is the total the writer computed. */
  datatype Manifest = Manifest(path: string, size: nat, correlationId: Option<string>, files: seq<ManifestFile>)

  /** The sum of the sizes of `files`. */
  function TotalSize(files: seq<ManifestFile>): nat
  {
    if files == [] then 0 else TotalSize(files[..|files| - 1]) + files[|files| - 1].size
  }

  /** Summing sizes distributes over concatenation. */
  lemma {:induction false} TotalSizeAppend(a: seq<ManifestFile>, b: seq<ManifestFile>)
    ensures TotalSize(a + b) == TotalSize(a) + TotalSize(b)
  {
    if b != [] {
      assert (a + b)[..|a + b| - 1] == a + b[..|b| - 1];
      TotalSizeAppend(a, b[..|b| - 1]);
    } else {
      assert a + b == a;
    }
  }

  /** The elements of `s` that `keep` accepts, in their original order. */
  function Filter<T>(s: seq<T>, keep: T -> bool): (r: seq<T>)
    ensures |r| <= |s|
  {
    if s == [] then []
    else
      var kept := Filter(s[..|s| - 1], keep);
      if keep(s[|s| - 1]) then kept + [s[|s| - 1]] else kept
  }

  /** An element survives filtering exactly when it is in the input and accepted. */
  lemma {:induction false} FilterMembership<T>(s: seq<T>, keep: T -> bool, x: T)
    ensures x in Filter(s, keep) <==> x in s && keep(x)
  {
    if s != [] {
      var init := s[..|s| - 1];
      FilterMembership(init, keep, x);
      assert s == init + [s[|s| - 1]];
    }
  }

  /** Filtering by a predicate and by its negation splits the input: every
      element lands in exactly one of the two outputs, as many times as it
      occurs in the input. */
  lemma {:induction false} FilterPartition<T>(s: seq<T>, keep: T -> bool, drop: T -> bool)
    requires forall x :: drop(x) == !keep(x)
    ensures multiset(Filter(s, keep)) + multiset(Filter(s, drop)) == multiset(s)
    ensures |Filter(s, keep)| + |Filter(s, drop)| == |s|
  {
    if s != [] {
      var init := s[..|s| - 1];
      var last := s[|s| - 1];
      FilterPartition(init, keep, drop);
      assert s == init + [last];
      assert multiset(s) == multiset(init) + multiset{last};
      if keep(last) {
        assert Filter(s, keep) == Filter(init, keep) + [last];
        assert Filter(s, drop) == Filter(init, drop);
      } else {
        assert Filter(s, keep) == Filter(init, keep);
        assert Filter(s, drop) == Filter(init, drop) + [last];
      }
    }
  }
}
