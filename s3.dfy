/** src/s3.ts: parsing `s3://bucket/key` locations, and locating where an
    interrupted upload of an ordered file list left off, using a remote
    existence probe (`headObject`) as an oracle. */
module S3 {
  import opened Results
  import opened Strings
  import opened ManifestTypes

  datatype BucketKey = BucketKey(key: string, bucket: string)

  /** `parse(uri)`: `None` for an absent URI, one without the `s3://`
      scheme, a blank bucket (the third `/`-separated part) or a blank key
      (all later parts, rejoined with `/`). */
  function Parse(uri: Option<string>): (r: Option<BucketKey>)
    ensures r.Some? ==> uri.Some? && StartsWith(uri.value, "s3://")
    ensures r.Some? ==> !IsBlank(r.value.bucket) && !IsBlank(r.value.key)
    ensures r.Some? ==> '/' !in r.value.bucket
  {
    if uri.None? || !StartsWith(uri.value, "s3://") then None
    else
      var parts := Split(uri.value, '/');
      if |parts| < 3 || IsBlank(parts[2]) then None
      else
        var key := Join(parts[3..], "/");
        if IsBlank(key) then None
        else Some(BucketKey(key, parts[2]))
  }

  /** The scheme prefix splits into the parts `"s3:"` and `""`. */
  lemma SplitScheme(rest: string)
    ensures Split("s3://" + rest, '/') == ["s3:", ""] + Split(rest, '/')
  {
    var scheme := "s3:";
    assert '/' !in scheme;
    assert "s3://" + rest == scheme + ['/'] + (['/'] + rest);
    SplitAfterPiece(scheme, '/', ['/'] + rest);
    assert ['/'] + rest == "" + ['/'] + rest;
    SplitAfterPiece("", '/', rest);
  }

  /** How a location `s3://b` or `s3://b/rest` splits when `b` holds no `/`. */
  lemma SplitLocation(b: string, rest: string)
    requires '/' !in b
    ensures Split("s3://" + b, '/') == ["s3:", "", b]
    ensures Split("s3://" + b + "/" + rest, '/') == ["s3:", "", b] + Split(rest, '/')
  {
    SplitScheme(b);
    SplitSeparatorFree(b, '/');
    assert "s3://" + b + "/" + rest == "s3://" + (b + ['/'] + rest);
    SplitScheme(b + ['/'] + rest);
    SplitAfterPiece(b, '/', rest);
  }

  /** Round trip: a location built from a `/`-free, non-blank bucket and a
      non-blank key (which may itself contain `/`) parses back into them. */
  lemma ParseRoundTrip(bucket: string, key: string)
    requires '/' !in bucket && !IsBlank(bucket) && !IsBlank(key)
    ensures Parse(Some("s3://" + bucket + "/" + key)) == Some(BucketKey(key, bucket))
  {
    var uri := "s3://" + bucket + "/" + key;
    SplitLocation(bucket, key);
    var parts := Split(uri, '/');
    assert parts[3..] == Split(key, '/');
    JoinSplit(key, '/');
    assert StartsWith(uri, "s3://");
  }

  /** Conversely, whatever `Parse` accepts is exactly such a location. */
  lemma ParseSound(uri: string)
    requires Parse(Some(uri)).Some?
    ensures var bk := Parse(Some(uri)).value;
      uri == "s3://" + bk.bucket + "/" + bk.key
  {
    var parts := Split(uri, '/');
    var bk := Parse(Some(uri)).value;
    JoinSplit(uri, '/');
    assert |parts[3..]| >= 1;
    assert parts == [parts[0], parts[1], parts[2]] + parts[3..];
    assert Join(parts[2..], "/") == parts[2] + "/" + Join(parts[3..], "/") by {
      assert parts[2..][1..] == parts[3..];
    }
    assert Join(parts[1..], "/") == parts[1] + "/" + Join(parts[2..], "/") by {
      assert parts[1..][1..] == parts[2..];
    }
    // The first two parts come from the scheme prefix.
    assert uri[..5] == "s3://";
    var rest := uri[5..];
    assert uri == "s3:" + ['/'] + ("" + ['/'] + rest);
    SplitAfterPiece("s3:", '/', "" + ['/'] + rest);
    SplitAfterPiece("", '/', rest);
  }

  /** A location with no key, with or without a trailing `/`, is refused. */
  lemma ParseNeedsKey(bucket: string)
    requires '/' !in bucket
    ensures Parse(Some("s3://" + bucket)) == None
    ensures Parse(Some("s3://" + bucket + "/")) == None
  {
    SplitLocation(bucket, "");
    assert "s3://" + bucket + "/" + "" == "s3://" + bucket + "/";
    var parts := Split("s3://" + bucket + "/", '/');
    assert parts == ["s3:", "", bucket, ""];
    assert parts[3..] == [""];
    assert StartsWith("s3://" + bucket, "s3://");
    assert StartsWith("s3://" + bucket + "/", "s3://");
  }

  /** What `headObject` reports for one file: missing (`NotFound`), or
      present with the stored object's `ContentLength`, if any. */
  datatype Head = Missing | Present(contentLength: Option<int>)

  /** Half-width of the verification window around the search boundary. */
  const CheckRange: nat := 5
  /** The search loop stops once it has made more than this many probes. */
  const ProbeLimit: nat := 50

  function Pow2(e: nat): (r: nat)
    ensures r >= 1
  {
    if e == 0 then 1 else 2 * Pow2(e - 1)
  }

  lemma {:induction false} Pow2Add(a: nat, b: nat)
    ensures Pow2(a + b) == Pow2(a) * Pow2(b)
  {
    if a > 0 {
      Pow2Add(a - 1, b);
    }
  }

  /** `2^(ProbeLimit + 1)`: lists shorter than this fit the probe budget. */
  const ProbeBudget: nat := 0x8_0000_0000_0000

  lemma ProbeBudgetIsPow2(e: nat)
    requires e == ProbeLimit + 1
    ensures Pow2(e) == ProbeBudget
  {
    assert Pow2(3) == 8;
    assert Pow2(8) == 0x100;
    Pow2Add(8, 8);
    assert Pow2(16) == 0x1_0000;
    Pow2Add(16, 16);
    assert Pow2(32) == 0x1_0000_0000;
    Pow2Add(32, 16);
    assert Pow2(48) == 0x1_0000_0000_0000;
    Pow2Add(48, 3);
    assert Pow2(51) == ProbeBudget;
  }

  /** `2^32`: JavaScript's `>>>` first reduces its operand to an unsigned
      32-bit integer. */
  const Uint32Range: nat := 0x1_0000_0000
  /** `2^31`: the longest list whose search midpoints never wrap around. */
  const MaxSearchLength: nat := 0x8000_0000

  /** `(a + b) >>> 1` for non-negative `a` and `b`: the sum taken modulo
      `2^32`, then halved. It is the plain midpoint exactly when the sum
      fits in 32 bits, and never lies above it. */
  function UnsignedMidpoint(a: nat, b: nat): (mid: nat)
    ensures a + b < Uint32Range ==> mid == (a + b) / 2
    ensures 2 * mid <= a + b && mid < MaxSearchLength
  {
    ((a + b) % Uint32Range) / 2
  }

  /** File `i` still needs uploading: missing remotely, or of a different size. */
  predicate Mismatch(files: seq<ManifestFile>, head: nat -> Head, i: nat)
    requires i < |files|
  {
    head(i).Missing? || head(i).contentLength != Some(files[i].size)
  }

  /** The remote side holds files `[0, k)` and none of the others. */
  ghost predicate PresentBelow(n: nat, head: nat -> Head, k: nat)
  {
    k <= n &&
    (forall i :: 0 <= i < k ==> head(i).Present?) &&
    (forall i :: k <= i < n ==> head(i).Missing?)
  }

  /** The remote side holds exactly `files[..k]`, each with its manifest size. */
  ghost predicate UploadedPrefix(files: seq<ManifestFile>, head: nat -> Head, k: nat)
  {
    k <= |files| &&
    (forall i :: 0 <= i < k ==> head(i) == Present(Some(files[i].size))) &&
    (forall i :: k <= i < |files| ==> head(i) == Missing)
  }

  /** Halving a range narrower than `2^e` leaves one narrower than `2^(e-1)`. */
  lemma HalvedBelow(width: int, halved: int, e: nat)
    requires e >= 1 && width < Pow2(e) && 2 * halved <= width
    ensures halved < Pow2(e - 1)
  {
  }

  /** What the search keeps for a list of `n <= 2^31` files: `[low, high]`
      is the unprobed range, flanked by the last index seen present and the
      first seen missing, and it fits in the probes left. */
  ghost predicate ShortSearch(n: nat, low: int, high: int, foundUploaded: int, foundNotUploaded: int, probes: nat)
  {
    probes <= ProbeLimit + 1 && low <= high + 1 && foundUploaded == low - 1 &&
    (foundNotUploaded == -1 ==> high == n - 1) &&
    (foundNotUploaded != -1 ==> foundNotUploaded == high + 1 && high < n - 1) &&
    probes + (high - low + 1) <= n &&
    high - low + 1 < Pow2(ProbeLimit + 1 - probes)
  }

  /** A probe of a short search that finds the midpoint present: the
      midpoint does not wrap and lies above the last index seen present, and
      moving `low` past it keeps `ShortSearch` with one probe fewer left. */
  lemma ShortSearchPresent(n: nat, low: nat, high: nat, foundUploaded: int, foundNotUploaded: int, probes: nat)
    requires n <= MaxSearchLength && low <= high < n && probes <= ProbeLimit
    requires ShortSearch(n, low, high, foundUploaded, foundNotUploaded, probes)
    ensures var mid := UnsignedMidpoint(low, high);
      low <= mid <= high && mid > foundUploaded &&
      ShortSearch(n, mid + 1, high, mid, foundNotUploaded, probes + 1)
  {
    var mid := UnsignedMidpoint(low, high);
    assert mid == (low + high) / 2;
    HalvedBelow(high - low + 1, high - mid, ProbeLimit + 1 - probes);
  }

  /** A probe of a short search that finds the midpoint missing: the
      midpoint does not wrap and lies below the first index seen missing, and
      moving `high` below it keeps `ShortSearch` with one probe fewer left. */
  lemma ShortSearchMissing(n: nat, low: nat, high: nat, foundUploaded: int, foundNotUploaded: int, probes: nat)
    requires n <= MaxSearchLength && low <= high < n && probes <= ProbeLimit
    requires ShortSearch(n, low, high, foundUploaded, foundNotUploaded, probes)
    ensures var mid := UnsignedMidpoint(low, high);
      low <= mid <= high && (mid < foundNotUploaded || foundNotUploaded == -1) &&
      ShortSearch(n, low, mid - 1, foundUploaded, mid, probes + 1)
  {
    var mid := UnsignedMidpoint(low, high);
    assert mid == (low + high) / 2;
    HalvedBelow(high - low + 1, mid - low, ProbeLimit + 1 - probes);
  }

  /** When a short search stops, by its guard or by running out of probes,
      the range is empty: the reported indices are in order, and over a
      remote prefix they are the prefix's last index and its end. */
  lemma ShortSearchDone(n: nat, head: nat -> Head, low: int, high: int, foundUploaded: int, foundNotUploaded: int,
                        probes: nat)
    requires ShortSearch(n, low, high, foundUploaded, foundNotUploaded, probes)
    requires 0 <= low && (low > high || probes == ProbeLimit + 1)
    requires foundUploaded >= 0 ==> head(foundUploaded).Present?
    requires foundNotUploaded >= 0 ==> head(foundNotUploaded).Missing?
    ensures foundUploaded >= 0 && foundNotUploaded >= 0 ==> foundUploaded < foundNotUploaded
    ensures forall k: nat :: PresentBelow(n, head, k) ==>
      foundUploaded == k - 1 && foundNotUploaded == (if k == n then -1 else k)
  {
    assert low == high + 1;
    forall k: nat | PresentBelow(n, head, k)
      ensures foundUploaded == k - 1 && foundNotUploaded == (if k == n then -1 else k)
    {
      PrefixBoundary(n, head, k, low);
    }
  }

  /** What the search reports about the indices it probed: `foundUploaded`
      is the highest one seen present and `foundNotUploaded` the lowest one
      seen missing, each `-1` when no probe gave that answer. */
  ghost predicate ProbeRecord(head: nat -> Head, probed: seq<nat>, foundUploaded: int, foundNotUploaded: int)
  {
    -1 <= foundUploaded && -1 <= foundNotUploaded &&
    (foundUploaded == -1 <==> forall i :: 0 <= i < |probed| ==> head(probed[i]).Missing?) &&
    (foundUploaded >= 0 ==>
       foundUploaded in probed && head(foundUploaded).Present? &&
       forall i :: 0 <= i < |probed| && head(probed[i]).Present? ==> probed[i] <= foundUploaded) &&
    (foundNotUploaded == -1 <==> forall i :: 0 <= i < |probed| ==> head(probed[i]).Present?) &&
    (foundNotUploaded >= 0 ==>
       foundNotUploaded in probed && head(foundNotUploaded).Missing? &&
       forall i :: 0 <= i < |probed| && head(probed[i]).Missing? ==> foundNotUploaded <= probed[i])
  }

  /** Recording a probe that finds `mid` present (src/s3.ts:38). */
  lemma ProbeRecordPresent(head: nat -> Head, probed: seq<nat>, foundUploaded: int, foundNotUploaded: int, mid: nat)
    requires ProbeRecord(head, probed, foundUploaded, foundNotUploaded) && head(mid).Present?
    ensures ProbeRecord(head, probed + [mid], if mid > foundUploaded then mid else foundUploaded, foundNotUploaded)
  {
    var next := probed + [mid];
    assert forall i :: 0 <= i < |probed| ==> next[i] == probed[i];
    assert next[|probed|] == mid;
  }

  /** Recording a probe that finds `mid` missing (src/s3.ts:41). */
  lemma ProbeRecordMissing(head: nat -> Head, probed: seq<nat>, foundUploaded: int, foundNotUploaded: int, mid: nat)
    requires ProbeRecord(head, probed, foundUploaded, foundNotUploaded) && head(mid).Missing?
    ensures ProbeRecord(head, probed + [mid], foundUploaded,
                        if mid < foundNotUploaded || foundNotUploaded == -1 then mid else foundNotUploaded)
  {
    var next := probed + [mid];
    assert forall i :: 0 <= i < |probed| ==> next[i] == probed[i];
    assert next[|probed|] == mid;
  }

  /** Where the search stands: the unprobed range `[low, high]`, the two
      indices it reports, and the probes made so far, in order. */
  datatype SearchState = SearchState(low: nat, high: int, foundUploaded: int, foundNotUploaded: int,
                                     probes: nat, probed: seq<nat>)

  /** The state before the first probe of a list of `n` files (src/s3.ts:21-25). */
  function StartState(n: nat): SearchState
  {
    SearchState(0, n - 1, -1, -1, 0, [])
  }

  /** One round of the search loop (src/s3.ts:28-46): probe the midpoint,
      record the answer, and keep the half that can still hold the boundary. */
  ghost function Step(head: nat -> Head, s: SearchState): SearchState
    requires s.low <= s.high
  {
    var mid := UnsignedMidpoint(s.low, s.high);
    if head(mid).Present? then
      s.(low := mid + 1, foundUploaded := if mid > s.foundUploaded then mid else s.foundUploaded,
         probes := s.probes + 1, probed := s.probed + [mid])
    else
      s.(high := mid - 1,
         foundNotUploaded := if mid < s.foundNotUploaded || s.foundNotUploaded == -1 then mid else s.foundNotUploaded,
         probes := s.probes + 1, probed := s.probed + [mid])
  }

  /** The rest of the search from `s`: rounds until the range is empty or
      more than `ProbeLimit` probes were made (src/s3.ts:27, 46-47). */
  ghost function Run(head: nat -> Head, s: SearchState): SearchState
    decreases ProbeLimit + 1 - s.probes
  {
    if s.low > s.high || s.probes > ProbeLimit then s else Run(head, Step(head, s))
  }

  /** The run invariant over a list of `n` files, whatever the oracle
      answers: the range and every probe lie inside the list, at most
      `ProbeLimit + 1` probes were made, and the reported indices are the
      highest probe seen present and the lowest seen missing. */
  ghost predicate Recorded(n: nat, head: nat -> Head, s: SearchState)
  {
    s.high < n && s.probes <= ProbeLimit + 1 && |s.probed| == s.probes &&
    (forall i :: 0 <= i < |s.probed| ==> s.probed[i] < n) &&
    ProbeRecord(head, s.probed, s.foundUploaded, s.foundNotUploaded)
  }

  /** One round keeps `Recorded`. */
  lemma RecordedStep(n: nat, head: nat -> Head, s: SearchState)
    requires Recorded(n, head, s) && s.low <= s.high && s.probes <= ProbeLimit
    ensures Recorded(n, head, Step(head, s))
  {
    var mid := UnsignedMidpoint(s.low, s.high);
    if head(mid).Present? {
      ProbeRecordPresent(head, s.probed, s.foundUploaded, s.foundNotUploaded, mid);
    } else {
      ProbeRecordMissing(head, s.probed, s.foundUploaded, s.foundNotUploaded, mid);
    }
    var next := s.probed + [mid];
    assert forall i :: 0 <= i < |s.probed| ==> next[i] == s.probed[i];
  }

  /** A run stops with an empty range or after `ProbeLimit + 1` probes, and
      keeps `Recorded`. */
  lemma {:induction false} RunRecorded(n: nat, head: nat -> Head, s: SearchState)
    requires Recorded(n, head, s)
    ensures Recorded(n, head, Run(head, s))
    ensures Run(head, s).low > Run(head, s).high || Run(head, s).probes == ProbeLimit + 1
    decreases ProbeLimit + 1 - s.probes
  {
    if s.low <= s.high && s.probes <= ProbeLimit {
      RecordedStep(n, head, s);
      RunRecorded(n, head, Step(head, s));
    }
  }

  /** The run invariant over a list of at most `2^31` files: `ShortSearch`,
      with the reported indices answered present and missing. */
  ghost predicate ShortState(n: nat, head: nat -> Head, s: SearchState)
  {
    s.high < n && ShortSearch(n, s.low, s.high, s.foundUploaded, s.foundNotUploaded, s.probes) &&
    (s.foundUploaded >= 0 ==> head(s.foundUploaded).Present?) &&
    (s.foundNotUploaded >= 0 ==> head(s.foundNotUploaded).Missing?)
  }

  /** One round keeps `ShortState`. */
  lemma ShortStep(n: nat, head: nat -> Head, s: SearchState)
    requires n <= MaxSearchLength && ShortState(n, head, s) && s.low <= s.high && s.probes <= ProbeLimit
    ensures ShortState(n, head, Step(head, s))
  {
    if head(UnsignedMidpoint(s.low, s.high)).Present? {
      ShortSearchPresent(n, s.low, s.high, s.foundUploaded, s.foundNotUploaded, s.probes);
    } else {
      ShortSearchMissing(n, s.low, s.high, s.foundUploaded, s.foundNotUploaded, s.probes);
    }
  }

  /** A run keeps `ShortState`. */
  lemma {:induction false} RunShort(n: nat, head: nat -> Head, s: SearchState)
    requires n <= MaxSearchLength && ShortState(n, head, s)
    ensures ShortState(n, head, Run(head, s))
    decreases ProbeLimit + 1 - s.probes
  {
    if s.low <= s.high && s.probes <= ProbeLimit {
      ShortStep(n, head, s);
      RunShort(n, head, Step(head, s));
    }
  }

  /** What a whole search from the start reports, whatever the oracle
      answers: at most `ProbeLimit + 1` probes, all inside the list, and the
      highest index seen present and the lowest seen missing; for a list of
      at most `2^31` files, no more probes than files, the two indices in
      order, and over a remote prefix its last index and its end. */
  lemma SearchOutcome(n: nat, head: nat -> Head)
    ensures var r := Run(head, StartState(n));
      r.probes <= ProbeLimit + 1 && r.probes <= n &&
      |r.probed| == r.probes && (forall i :: 0 <= i < |r.probed| ==> r.probed[i] < n) &&
      -1 <= r.foundUploaded < n && -1 <= r.foundNotUploaded < n &&
      ProbeRecord(head, r.probed, r.foundUploaded, r.foundNotUploaded) &&
      (n <= MaxSearchLength && r.foundUploaded >= 0 && r.foundNotUploaded >= 0 ==>
         r.foundUploaded < r.foundNotUploaded) &&
      forall k: nat :: PresentBelow(n, head, k) && n <= MaxSearchLength ==>
        r.foundUploaded == k - 1 && r.foundNotUploaded == (if k == n then -1 else k)
  {
    var r := Run(head, StartState(n));
    RunRecorded(n, head, StartState(n));
    if n <= MaxSearchLength {
      ProbeBudgetIsPow2(ProbeLimit + 1);
      RunShort(n, head, StartState(n));
      ShortSearchDone(n, head, r.low, r.high, r.foundUploaded, r.foundNotUploaded, r.probes);
    }
  }

  /** The probe-bounded binary search of `findUploaded` (src/s3.ts:21-48),
      midpoint wrap-around included: it computes `Run` from the start state.
      Whatever the oracle answers, it reports the highest index it saw
      present and the lowest it saw missing; for a list of at most `2^31`
      files the first lies below the second, and over a remote prefix the
      two straddle the prefix's end. */
  method SearchBoundary(files: seq<ManifestFile>, head: nat -> Head)
    returns (foundUploaded: int, foundNotUploaded: int, probes: nat, ghost probed: seq<nat>)
    ensures var r := Run(head, StartState(|files|));
      foundUploaded == r.foundUploaded && foundNotUploaded == r.foundNotUploaded &&
      probes == r.probes && probed == r.probed
    ensures probes <= ProbeLimit + 1 && probes <= |files|
    ensures |probed| == probes && forall i :: 0 <= i < |probed| ==> probed[i] < |files|
    ensures -1 <= foundUploaded < |files| && -1 <= foundNotUploaded < |files|
    ensures ProbeRecord(head, probed, foundUploaded, foundNotUploaded)
    ensures |files| <= MaxSearchLength && foundUploaded >= 0 && foundNotUploaded >= 0 ==>
      foundUploaded < foundNotUploaded
    ensures forall k: nat :: PresentBelow(|files|, head, k) && |files| <= MaxSearchLength ==>
      foundUploaded == k - 1 && foundNotUploaded == (if k == |files| then -1 else k)
  {
    foundUploaded, foundNotUploaded, probes, probed := -1, -1, 0, [];
    var low: nat, high: int := 0, |files| - 1;
    while low <= high
      invariant probes <= ProbeLimit
      invariant Run(head, SearchState(low, high, foundUploaded, foundNotUploaded, probes, probed)) ==
                Run(head, StartState(|files|))
      decreases ProbeLimit - probes
    {
      ghost var before := SearchState(low, high, foundUploaded, foundNotUploaded, probes, probed);
      var mid := UnsignedMidpoint(low, high);
      if head(mid).Present? {
        if mid > foundUploaded { foundUploaded := mid; }
        low := mid + 1;
      } else {
        if mid < foundNotUploaded || foundNotUploaded == -1 { foundNotUploaded := mid; }
        high := mid - 1;
      }
      probes, probed := probes + 1, probed + [mid];
      assert SearchState(low, high, foundUploaded, foundNotUploaded, probes, probed) == Step(head, before);
      if probes > ProbeLimit {
        break;
      }
    }
    SearchOutcome(|files|, head);
  }

  /** Over a remote prefix of length `k`, an index whose left neighbour is
      present and which is itself missing (or lies at an end) is `k`. */
  lemma PrefixBoundary(n: nat, head: nat -> Head, k: nat, low: nat)
    requires PresentBelow(n, head, k) && low <= n
    requires low > 0 ==> head(low - 1).Present?
    requires low < n ==> head(low).Missing?
    ensures k == low
  {
    assert low < k ==> head(low).Present?;
  }

  /** The first index in `[i, end)` whose file needs uploading, if any. */
  function FirstMismatch(files: seq<ManifestFile>, head: nat -> Head, i: nat, end: nat): Option<nat>
    requires end <= |files|
    decreases end - i
  {
    if i >= end then None
    else if Mismatch(files, head, i) then Some(i)
    else FirstMismatch(files, head, i + 1, end)
  }

  /** What `findUploaded` answers (src/s3.ts:50-66) for the outcome of the
      search: the list length when no probe was answered missing, `0` when
      none was answered present, otherwise the first mismatch in the window
      `[foundUploaded - 5, foundNotUploaded + 5)` clamped to the list, or
      `Failed` when the window holds none. */
  ghost function ResumePoint(files: seq<ManifestFile>, head: nat -> Head): Result<nat, string>
  {
    var s := Run(head, StartState(|files|));
    if s.foundNotUploaded < 0 then Ok(|files|)
    else if s.foundUploaded < 0 then Ok(0)
    else
      var start := if s.foundUploaded - CheckRange < 0 then 0 else s.foundUploaded - CheckRange;
      var end := if s.foundNotUploaded + CheckRange < |files| then s.foundNotUploaded + CheckRange else |files|;
      match FirstMismatch(files, head, start, end)
      case Some(i) => Ok(i)
      case None => Err("Failed")
  }

  /** `FirstMismatch` finds the first index of the range that needs
      uploading, and finds none only when no index of the range does. */
  lemma {:induction false} FirstMismatchIsFirst(files: seq<ManifestFile>, head: nat -> Head, i: nat, end: nat)
    requires end <= |files|
    ensures var m := FirstMismatch(files, head, i, end);
      (m.Some? ==> i <= m.value < end && Mismatch(files, head, m.value) &&
                   forall j :: i <= j < m.value ==> !Mismatch(files, head, j)) &&
      (m.None? ==> forall j :: i <= j < end ==> !Mismatch(files, head, j))
    decreases end - i
  {
    if i < end && !Mismatch(files, head, i) {
      FirstMismatchIsFirst(files, head, i + 1, end);
    }
  }

  /** How the resume point follows from the search, whatever the oracle
      answers: probes all answered present give the list length, probes all
      answered missing give `0`, and otherwise the answer is the first
      mismatch of the window around the two reported indices, or `Failed`
      when the window has none. */
  lemma ResumePointFromWindow(files: seq<ManifestFile>, head: nat -> Head)
    ensures var s := Run(head, StartState(|files|)); var r := ResumePoint(files, head);
      ((forall i :: 0 <= i < |s.probed| ==> head(s.probed[i]).Present?) ==> r == Ok(|files|)) &&
      (((exists i :: 0 <= i < |s.probed| && head(s.probed[i]).Missing?) &&
        (forall i :: 0 <= i < |s.probed| ==> head(s.probed[i]).Missing?)) ==> r == Ok(0)) &&
      (r.Ok? ==> r.value <= |files|) &&
      (s.foundNotUploaded >= 0 && s.foundUploaded >= 0 ==>
         var start := if s.foundUploaded - CheckRange < 0 then 0 else s.foundUploaded - CheckRange;
         var end := if s.foundNotUploaded + CheckRange < |files| then s.foundNotUploaded + CheckRange else |files|;
         (r.Ok? ==> start <= r.value < end && Mismatch(files, head, r.value) &&
                    forall j :: start <= j < r.value ==> !Mismatch(files, head, j)) &&
         (r.Err? ==> r.error == "Failed" && forall j :: start <= j < end ==> !Mismatch(files, head, j)))
  {
    var s := Run(head, StartState(|files|));
    SearchOutcome(|files|, head);
    if s.foundNotUploaded >= 0 && s.foundUploaded >= 0 {
      var start := if s.foundUploaded - CheckRange < 0 then 0 else s.foundUploaded - CheckRange;
      var end := if s.foundNotUploaded + CheckRange < |files| then s.foundNotUploaded + CheckRange else |files|;
      FirstMismatchIsFirst(files, head, start, end);
    }
  }

  /** For a list of at most `2^31` files the resume point is never
      `Failed`: the window always holds the index seen missing. */
  lemma ResumePointNeverFails(files: seq<ManifestFile>, head: nat -> Head)
    ensures |files| <= MaxSearchLength ==> ResumePoint(files, head).Ok?
  {
    var s := Run(head, StartState(|files|));
    SearchOutcome(|files|, head);
    if |files| <= MaxSearchLength && s.foundNotUploaded >= 0 && s.foundUploaded >= 0 {
      var start := if s.foundUploaded - CheckRange < 0 then 0 else s.foundUploaded - CheckRange;
      var end := if s.foundNotUploaded + CheckRange < |files| then s.foundNotUploaded + CheckRange else |files|;
      FirstMismatchIsFirst(files, head, start, end);
      assert start <= s.foundNotUploaded < end && Mismatch(files, head, s.foundNotUploaded);
    }
  }

  /** Over a remote prefix of length `k` of a list of at most `2^31` files,
      the search reports `k - 1` and `k` (or `-1` at either end). */
  lemma SearchOfPrefix(n: nat, head: nat -> Head, k: nat)
    requires PresentBelow(n, head, k) && n <= MaxSearchLength
    ensures Run(head, StartState(n)).foundUploaded == k - 1
    ensures Run(head, StartState(n)).foundNotUploaded == if k == n then -1 else k
  {
    SearchOutcome(n, head);
  }

  /** For a list of at most `2^31` files, over a remote prefix of length `k`
      the resume point is `k`. */
  lemma ResumePointOfPrefix(files: seq<ManifestFile>, head: nat -> Head, k: nat)
    requires UploadedPrefix(files, head, k) && |files| <= MaxSearchLength
    ensures ResumePoint(files, head) == Ok(k)
  {
    var s := Run(head, StartState(|files|));
    assert PresentBelow(|files|, head, k);
    SearchOfPrefix(|files|, head, k);
    if 0 < k < |files| {
      var start := if s.foundUploaded - CheckRange < 0 then 0 else s.foundUploaded - CheckRange;
      var end := if s.foundNotUploaded + CheckRange < |files| then s.foundNotUploaded + CheckRange else |files|;
      FirstMismatchIsFirst(files, head, start, end);
      assert Mismatch(files, head, k);
      assert FirstMismatch(files, head, start, end) == Some(k);
    }
  }

  /** A remote holding only the last of three files: the search probes 1
      and then 0, sees both missing, and the upload resumes at 0, so no file
      is skipped. */
  lemma ResumeWhenOnlyLastPresent(files: seq<ManifestFile>, head: nat -> Head)
    requires |files| == 3
    requires head(0).Missing? && head(1).Missing? && head(2).Present?
    ensures Run(head, StartState(3)).probed == [1, 0]
    ensures ResumePoint(files, head) == Ok(0)
  {
    var s0 := StartState(3);
    var s1 := Step(head, s0);
    assert UnsignedMidpoint(0, 2) == 1;
    assert s1 == SearchState(0, 0, -1, 1, 1, [1]);
    var s2 := Step(head, s1);
    assert UnsignedMidpoint(0, 0) == 0;
    assert s2 == SearchState(0, -1, -1, 0, 2, [1, 0]);
    assert Run(head, s2) == s2;
    assert Run(head, s1) == s2;
  }

  /** The linear pass of `findUploaded` (src/s3.ts:54-66): the first index in
      `[start, end)` whose file is missing or of the wrong size, if any; a
      window with `start >= end` is empty. */
  method VerifyWindow(files: seq<ManifestFile>, head: nat -> Head, start: nat, end: nat)
    returns (r: Option<nat>)
    requires end <= |files|
    ensures r.Some? ==> start <= r.value < end && Mismatch(files, head, r.value)
    ensures r.Some? ==> forall j :: start <= j < r.value ==> !Mismatch(files, head, j)
    ensures r.None? ==> forall j :: start <= j < end ==> !Mismatch(files, head, j)
    ensures r == FirstMismatch(files, head, start, end)
  {
    var i := start;
    while i < end
      invariant start <= i && (i <= end || i == start)
      invariant forall j :: start <= j < i ==> !Mismatch(files, head, j)
      invariant FirstMismatch(files, head, start, end) == FirstMismatch(files, head, i, end)
    {
      var h := head(i);
      if h == Missing { return Some(i); }
      if h.contentLength != Some(files[i].size) { return Some(i); }
      i := i + 1;
    }
    return None;
  }

  /** `findUploaded` (src/s3.ts:20-67): the index to resume uploading from.
      `probes` counts the existence checks of the search phase. For a list of
      at most `2^31` files the window always holds the index the search saw
      missing, so the result is never the error. */
  method FindUploaded(files: seq<ManifestFile>, head: nat -> Head)
    returns (r: Result<nat, string>, probes: nat, ghost probed: seq<nat>,
             ghost foundUploaded: int, ghost foundNotUploaded: int)
    ensures var s := Run(head, StartState(|files|));
      probes == s.probes && probed == s.probed &&
      foundUploaded == s.foundUploaded && foundNotUploaded == s.foundNotUploaded
    ensures r == ResumePoint(files, head)
    ensures probes <= ProbeLimit + 1 && probes <= |files|
    ensures |probed| == probes && forall i :: 0 <= i < |probed| ==> probed[i] < |files|
    ensures -1 <= foundUploaded < |files| && -1 <= foundNotUploaded < |files|
    ensures ProbeRecord(head, probed, foundUploaded, foundNotUploaded)
    ensures (forall i :: 0 <= i < |probed| ==> head(probed[i]).Present?) ==> r == Ok(|files|)
    ensures ((exists i :: 0 <= i < |probed| && head(probed[i]).Missing?) &&
             (forall i :: 0 <= i < |probed| ==> head(probed[i]).Missing?)) ==> r == Ok(0)
    ensures foundNotUploaded >= 0 && foundUploaded >= 0 ==>
      var start := if foundUploaded - CheckRange < 0 then 0 else foundUploaded - CheckRange;
      var end := if foundNotUploaded + CheckRange < |files| then foundNotUploaded + CheckRange else |files|;
      (r.Ok? ==> start <= r.value < end && Mismatch(files, head, r.value) &&
                 forall j :: start <= j < r.value ==> !Mismatch(files, head, j)) &&
      (r.Err? ==> r.error == "Failed" && forall j :: start <= j < end ==> !Mismatch(files, head, j))
    ensures r.Ok? ==> r.value <= |files|
    ensures |files| <= MaxSearchLength ==> r.Ok?
    ensures forall k: nat :: UploadedPrefix(files, head, k) && |files| <= MaxSearchLength ==> r == Ok(k)
  {
    var fu, fnu;
    fu, fnu, probes, probed := SearchBoundary(files, head);
    foundUploaded, foundNotUploaded := fu, fnu;
    if fnu < 0 {
      r := Ok(|files|);
    } else if fu < 0 {
      r := Ok(0);
    } else {
      var start := if fu - CheckRange < 0 then 0 else fu - CheckRange;
      var end := if fnu + CheckRange < |files| then fnu + CheckRange else |files|;
      var found := VerifyWindow(files, head, start, end);
      if found.Some? {
        r := Ok(found.value);
      } else {
        r := Err("Failed");
      }
    }
    ResumePointFromWindow(files, head);
    ResumePointNeverFails(files, head);
    forall k: nat | UploadedPrefix(files, head, k) && |files| <= MaxSearchLength
      ensures r == Ok(k)
    {
      ResumePointOfPrefix(files, head, k);
    }
  }
}
