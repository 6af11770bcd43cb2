/** The planning side of the `sync` command (src/commands/sync.ts): the
    endpoint rule, the split into individually uploaded big files and
    tar-bundled small files, cutting the small files into tar batches,
    resuming the big-file upload, and naming the tar batches. */
module Sync {
  import opened Results
  import opened Strings
  import opened ManifestTypes
  import S3

  const OneMb: nat := 1024 * 1024
  const OneGb: nat := OneMb * 1024
  /** Byte cap of one tar batch. */
  const MaxTarSizeBytes: nat := 5 * OneGb
  /** File-count cap of one tar batch. */
  const MaxTarFileCount: nat := 10_000

  // ---------------------------------------------------------------------------
  // Endpoint

  /** `--endpoint`: a bare host becomes `http://host:8080`; anything that
      already starts with `http` is used as given. */
  function NormalizeEndpoint(endpoint: Option<string>): (r: Option<string>)
    ensures r.None? <==> endpoint.None?
    ensures r.Some? ==> StartsWith(r.value, "http")
    ensures endpoint.Some? && StartsWith(endpoint.value, "http") ==> r == endpoint
    ensures endpoint.Some? && !StartsWith(endpoint.value, "http") ==>
      |r.value| == |endpoint.value| + 12 &&
      StartsWith(r.value, "http://") && EndsWith(r.value, ":8080") &&
      r.value[7..|r.value| - 5] == endpoint.value
  {
    if endpoint.Some? && !StartsWith(endpoint.value, "http") then Some("http://" + endpoint.value + ":8080")
    else endpoint
  }

  /** Normalising twice is normalising once. */
  lemma NormalizeEndpointIdempotent(endpoint: Option<string>)
    ensures NormalizeEndpoint(NormalizeEndpoint(endpoint)) == NormalizeEndpoint(endpoint)
  {
  }

  // ---------------------------------------------------------------------------
  // Big/small partition

  function IsBig(threshold: int): ManifestFile -> bool
  {
    (f: ManifestFile) => f.size > threshold
  }

  function IsSmall(threshold: int): ManifestFile -> bool
  {
    (f: ManifestFile) => f.size <= threshold
  }

  /** Filtering by "over the threshold" and by "at most the threshold" splits
      a file list: membership is decided by size, and every occurrence of a
      file lands in exactly one of the two. */
  lemma PartitionSplits(files: seq<ManifestFile>, threshold: int)
    ensures forall f :: f in Filter(files, IsBig(threshold)) <==> f in files && f.size > threshold
    ensures forall f :: f in Filter(files, IsSmall(threshold)) <==> f in files && f.size <= threshold
    ensures multiset(Filter(files, IsBig(threshold))) + multiset(Filter(files, IsSmall(threshold))) == multiset(files)
  {
    forall f ensures f in Filter(files, IsBig(threshold)) <==> f in files && f.size > threshold {
      FilterMembership(files, IsBig(threshold), f);
    }
    forall f ensures f in Filter(files, IsSmall(threshold)) <==> f in files && f.size <= threshold {
      FilterMembership(files, IsSmall(threshold), f);
    }
    FilterPartition(files, IsBig(threshold), IsSmall(threshold));
  }

  /** The filter loop of `run` (src/commands/sync.ts:86-92): files over
      `filterMb` MiB go to `bigFiles`, the rest to `smallFiles`, each in
      manifest order; together they are the manifest's files. */
  method PartitionBySize(files: seq<ManifestFile>, filterMb: int)
    returns (bigFiles: seq<ManifestFile>, smallFiles: seq<ManifestFile>)
    ensures bigFiles == Filter(files, IsBig(filterMb * OneMb))
    ensures smallFiles == Filter(files, IsSmall(filterMb * OneMb))
    ensures forall f :: f in bigFiles <==> f in files && f.size > filterMb * OneMb
    ensures forall f :: f in smallFiles <==> f in files && f.size <= filterMb * OneMb
    ensures multiset(bigFiles) + multiset(smallFiles) == multiset(files)
  {
    var filterSize := filterMb * 1024 * 1024;
    assert filterSize == filterMb * OneMb;
    bigFiles, smallFiles := [], [];
    for i := 0 to |files|
      invariant bigFiles == Filter(files[..i], IsBig(filterSize))
      invariant smallFiles == Filter(files[..i], IsSmall(filterSize))
    {
      assert files[..i + 1][..i] == files[..i];
      var file := files[i];
      if file.size > filterSize {
        bigFiles := bigFiles + [file];
      } else {
        smallFiles := smallFiles + [file];
      }
    }
    assert files[..|files|] == files;
    PartitionSplits(files, filterSize);
  }

  // ---------------------------------------------------------------------------
  // Tar batches

  /** A batch is closed once it holds more than the count cap or more than
      the byte cap. */
  predicate ExceedsTarLimits(batch: seq<ManifestFile>)
  {
    |batch| > MaxTarFileCount || TotalSize(batch) > MaxTarSizeBytes
  }

  /** All batches laid end to end. */
  function Flatten(batches: seq<seq<ManifestFile>>): seq<ManifestFile>
  {
    if batches == [] then [] else Flatten(batches[..|batches| - 1]) + batches[|batches| - 1]
  }

  /** A batch that was still open when its last file was added: it is
      non-empty and within both caps before that file. */
  predicate OpenedBatch(batch: seq<ManifestFile>)
  {
    batch != [] && !ExceedsTarLimits(batch[..|batch| - 1])
  }

  /** A batch that the last file added has closed. */
  predicate ClosedBatch(batch: seq<ManifestFile>)
  {
    OpenedBatch(batch) && ExceedsTarLimits(batch)
  }

  /** `batches` cut `files` the way the greedy rule does: laid end to end
      they are `files`; each is non-empty and within both caps before its
      last file; every batch but the last exceeds a cap. */
  ghost predicate IsTarChunking(files: seq<ManifestFile>, batches: seq<seq<ManifestFile>>)
  {
    Flatten(batches) == files &&
    (forall b :: 0 <= b < |batches| ==> OpenedBatch(batches[b])) &&
    (forall b :: 0 <= b < |batches| - 1 ==> ExceedsTarLimits(batches[b]))
  }

  lemma {:induction false} FlattenFirst(batches: seq<seq<ManifestFile>>)
    requires batches != []
    ensures Flatten(batches) == batches[0] + Flatten(batches[1..])
  {
    if |batches| > 1 {
      var init := batches[..|batches| - 1];
      FlattenFirst(init);
      assert init[1..] == batches[1..][..|batches[1..]| - 1];
    } else {
      assert batches[..0] == [];
    }
  }

  /** Staying within both caps is inherited by every prefix. */
  lemma WithinLimitsPrefix(batch: seq<ManifestFile>, n: nat)
    requires n <= |batch| && !ExceedsTarLimits(batch)
    ensures !ExceedsTarLimits(batch[..n])
  {
    TotalSizeAppend(batch[..n], batch[n..]);
    assert batch[..n] + batch[n..] == batch;
  }

  /** If one batch of a valid chunking is shorter than another's batch at the
      same start, it cannot be followed by another batch. */
  lemma FirstBatchNotShorter(files: seq<ManifestFile>, a: seq<seq<ManifestFile>>, b: seq<seq<ManifestFile>>)
    requires IsTarChunking(files, a) && IsTarChunking(files, b) && a != [] && b != []
    ensures |a[0]| >= |b[0]|
  {
    FlattenFirst(a);
    FlattenFirst(b);
    if |a[0]| < |b[0]| {
      assert a[0] == files[..|a[0]|] == b[0][..|a[0]|];
      var shortened := b[0][..|b[0]| - 1];
      assert a[0] == shortened[..|a[0]|];
      WithinLimitsPrefix(shortened, |a[0]|);
      assert false;
    }
  }

  /** After its first batch, a chunking goes on as a chunking of the rest. */
  lemma ChunkingTail(files: seq<ManifestFile>, a: seq<seq<ManifestFile>>)
    requires IsTarChunking(files, a) && a != []
    ensures |a[0]| <= |files| && a[0] == files[..|a[0]|]
    ensures IsTarChunking(files[|a[0]|..], a[1..])
  {
    FlattenFirst(a);
    assert Flatten(a[1..]) == files[|a[0]|..];
    forall k | 0 <= k < |a[1..]| ensures a[1..][k] == a[k + 1] { }
  }

  /** The conditions of `IsTarChunking` leave exactly one way to cut a list:
      the greedy rule admits no alternative. */
  lemma {:induction false} TarChunkingUnique(files: seq<ManifestFile>, a: seq<seq<ManifestFile>>, b: seq<seq<ManifestFile>>)
    requires IsTarChunking(files, a) && IsTarChunking(files, b)
    ensures a == b
    decreases |files|
  {
    if a == [] {
      if b != [] {
        FlattenFirst(b);
        assert false;
      }
    } else if b == [] {
      FlattenFirst(a);
      assert false;
    } else {
      FirstBatchNotShorter(files, a, b);
      FirstBatchNotShorter(files, b, a);
      ChunkingTail(files, a);
      ChunkingTail(files, b);
      var rest := files[|a[0]|..];
      assert a[0] == files[..|a[0]|] == b[0];
      TarChunkingUnique(rest, a[1..], b[1..]);
      assert a == [a[0]] + a[1..] && b == [b[0]] + b[1..];
    }
  }

  /** `chunkSmallFiles` (src/commands/sync.ts:250-264), with the generator's
      yields collected in order. */
  method ChunkSmallFiles(files: seq<ManifestFile>) returns (batches: seq<seq<ManifestFile>>)
    ensures IsTarChunking(files, batches)
    ensures batches == [] <==> files == []
    ensures forall b :: 0 <= b < |batches| ==> |batches[b]| <= MaxTarFileCount + 1
  {
    batches := [];
    var output: seq<ManifestFile> := [];
    var currentSize := 0;
    for i := 0 to |files|
      invariant ChunkingSoFar(files[..i], batches, output, currentSize)
    {
      var file := files[i];
      assert files[..i + 1] == files[..i] + [file];
      ChunkingGrows(files[..i], batches, output, currentSize, file);
      output := output + [file];
      currentSize := currentSize + file.size;
      if |output| > MaxTarFileCount || currentSize > MaxTarSizeBytes {
        ChunkingCloses(files[..i + 1], batches, output, currentSize);
        batches := batches + [output];
        output := [];
        currentSize := 0;
      }
    }
    assert files[..|files|] == files;
    CloseChunking(files, batches, output);
    if |output| > 0 {
      batches := batches + [output];
    }
    forall b | 0 <= b < |batches| ensures |batches[b]| <= MaxTarFileCount + 1 {
      assert OpenedBatch(batches[b]);
    }
  }

  /** The state of the `chunkSmallFiles` loop after reading `prefix`: the
      yielded batches followed by the open batch `output` are `prefix`, the
      running byte count is the open batch's, the open batch is within both
      caps, and every yielded batch was closed by its last file. */
  ghost predicate ChunkingSoFar(prefix: seq<ManifestFile>, batches: seq<seq<ManifestFile>>,
                                output: seq<ManifestFile>, currentSize: int)
  {
    Flatten(batches) + output == prefix &&
    currentSize == TotalSize(output) &&
    !ExceedsTarLimits(output) &&
    (batches == [] ==> output == prefix) &&
    (forall b :: 0 <= b < |batches| ==> ClosedBatch(batches[b]))
  }

  /** Adding a file to the open batch, before the caps are checked. */
  lemma ChunkingGrows(prefix: seq<ManifestFile>, batches: seq<seq<ManifestFile>>,
                      output: seq<ManifestFile>, currentSize: int, file: ManifestFile)
    requires ChunkingSoFar(prefix, batches, output, currentSize)
    ensures Flatten(batches) + (output + [file]) == prefix + [file]
    ensures currentSize + file.size == TotalSize(output + [file])
    ensures OpenedBatch(output + [file])
    ensures batches == [] ==> output + [file] == prefix + [file]
    ensures !(|output + [file]| > MaxTarFileCount || currentSize + file.size > MaxTarSizeBytes) ==>
      ChunkingSoFar(prefix + [file], batches, output + [file], currentSize + file.size)
  {
    assert (output + [file])[..|output + [file]| - 1] == output;
  }

  /** Closing the open batch once it exceeds a cap. */
  lemma ChunkingCloses(prefix: seq<ManifestFile>, batches: seq<seq<ManifestFile>>,
                       output: seq<ManifestFile>, currentSize: int)
    requires Flatten(batches) + output == prefix
    requires currentSize == TotalSize(output)
    requires OpenedBatch(output)
    requires forall b :: 0 <= b < |batches| ==> ClosedBatch(batches[b])
    requires |output| > MaxTarFileCount || currentSize > MaxTarSizeBytes
    ensures ChunkingSoFar(prefix, batches + [output], [], 0)
  {
    ClosedBatchAppend(batches, output);
  }

  /** Appending a closed batch keeps every batch closed. */
  lemma ClosedBatchAppend(batches: seq<seq<ManifestFile>>, output: seq<ManifestFile>)
    requires forall b :: 0 <= b < |batches| ==> ClosedBatch(batches[b])
    requires ClosedBatch(output)
    ensures forall b :: 0 <= b < |batches + [output]| ==> ClosedBatch((batches + [output])[b])
    ensures Flatten(batches + [output]) == Flatten(batches) + output
  {
    assert (batches + [output])[..|batches|] == batches;
  }

  /** The batches collected by the loop of `ChunkSmallFiles`, with the last,
      partly filled batch appended when it is not empty, form a chunking. */
  lemma CloseChunking(files: seq<ManifestFile>, batches: seq<seq<ManifestFile>>, output: seq<ManifestFile>)
    requires ChunkingSoFar(files, batches, output, TotalSize(output))
    ensures output == [] ==> IsTarChunking(files, batches)
    ensures output != [] ==> IsTarChunking(files, batches + [output])
  {
    if output != [] {
      var all := batches + [output];
      assert Flatten(all) == files by {
        assert all[..|all| - 1] == batches;
      }
      forall b | 0 <= b < |all|
        ensures OpenedBatch(all[b])
      {
        if b == |batches| {
          WithinLimitsPrefix(output, |output| - 1);
        } else {
          assert all[b] == batches[b];
        }
      }
      forall b | 0 <= b < |all| - 1
        ensures ExceedsTarLimits(all[b])
      {
        assert all[b] == batches[b];
      }
    }
  }

  // ---------------------------------------------------------------------------
  // Progress counters and resuming the big-file upload

  /** The module-level `Stats` counters. */
  class Stats {
    /** Files uploaded over all runs. */
    var count: nat
    /** Bytes uploaded this run. */
    var size: nat
    /** Bytes uploaded over all runs. */
    var progressSize: nat
    /** Files to upload. */
    var totalFiles: nat
    /** Bytes to upload. */
    var totalSize: nat

    constructor ()
      ensures count == 0 && size == 0 && progressSize == 0 && totalFiles == 0 && totalSize == 0
    {
      count, size, progressSize, totalFiles, totalSize := 0, 0, 0, 0, 0;
    }

    /** Count the files before `startIndex` as already uploaded by an
        earlier run (src/commands/sync.ts:150-151). */
    method ResumeFrom(files: seq<ManifestFile>, startIndex: nat)
      requires startIndex <= |files|
      modifies this
      ensures count == old(count) + startIndex
      ensures progressSize == old(progressSize) + TotalSize(files[..startIndex])
      ensures size == old(size) && totalFiles == old(totalFiles) && totalSize == old(totalSize)
    {
      count := count + startIndex;
      for i := 0 to startIndex
        invariant count == old(count) + startIndex
        invariant progressSize == old(progressSize) + TotalSize(files[..i])
        invariant size == old(size) && totalFiles == old(totalFiles) && totalSize == old(totalSize)
      {
        assert files[..i + 1][..i] == files[..i];
        progressSize := progressSize + files[i].size;
      }
    }
  }

  /** The start of `uploadBigFiles` (src/commands/sync.ts:148-154): find the
      resume point, credit the skipped files to the counters, and return the
      files still to upload. A failed search propagates and changes nothing. */
  method StartBigUploads(stats: Stats, files: seq<ManifestFile>, head: nat -> S3.Head)
    returns (r: Result<seq<ManifestFile>, string>)
    modifies stats
    ensures r.Err? <==> S3.ResumePoint(files, head).Err?
    ensures r.Err? ==> r.error == "Failed" && unchanged(stats)
    ensures r.Ok? ==> |r.value| <= |files| && r.value == files[|files| - |r.value|..]
    ensures r.Ok? ==> S3.ResumePoint(files, head) == Ok(|files| - |r.value|)
    ensures r.Ok? ==>
      var skipped := |files| - |r.value|;
      stats.count == old(stats.count) + skipped &&
      stats.progressSize == old(stats.progressSize) + TotalSize(files[..skipped]) &&
      stats.size == old(stats.size) && stats.totalFiles == old(stats.totalFiles) &&
      stats.totalSize == old(stats.totalSize)
    ensures |files| <= S3.MaxSearchLength ==> r.Ok?
    ensures forall k: nat :: S3.UploadedPrefix(files, head, k) && |files| <= S3.MaxSearchLength ==>
      r == Ok(files[k..]) && stats.count == old(stats.count) + k
  {
    var found, probes, probed, fu, fnu := S3.FindUploaded(files, head);
    if found.Err? {
      return Err(found.error);
    }
    var startIndex := found.value;
    stats.ResumeFrom(files, startIndex);
    r := Ok(files[startIndex..]);
  }

  // ---------------------------------------------------------------------------
  // Tar batch names

  /** The object name of the `index`-th tar batch. */
  function BatchName(index: nat): (name: string)
    ensures StartsWith(name, "batch-") && EndsWith(name, ".tar.gz")
  {
    "batch-" + DecimalString(index) + ".tar.gz"
  }

  /** Distinct batches get distinct names. */
  lemma BatchNameInjective(i: nat, j: nat)
    requires BatchName(i) == BatchName(j)
    ensures i == j
  {
    var a, b := BatchName(i), BatchName(j);
    assert a[6..|a| - 7] == DecimalString(i);
    assert b[6..|b| - 7] == DecimalString(j);
    DecimalStringInjective(i, j);
  }

  /** A batch to pack and upload: its position, object name and files. */
  datatype TarJob = TarJob(index: nat, name: string, files: seq<ManifestFile>)

  /** The batches, in order, whose object is not already present remotely. */
  function PendingBatches(chunks: seq<seq<ManifestFile>>, remoteHas: string -> bool): seq<TarJob>
  {
    if chunks == [] then []
    else
      var last := |chunks| - 1;
      PendingBatches(chunks[..last], remoteHas) +
        (if remoteHas(BatchName(last)) then [] else [TarJob(last, BatchName(last), chunks[last])])
  }

  /** Each job is the batch at its index, under that index's name, with no
      such object remotely; jobs are in increasing index order. */
  ghost predicate JobsMatchBatches(chunks: seq<seq<ManifestFile>>, remoteHas: string -> bool, jobs: seq<TarJob>)
  {
    (forall k :: 0 <= k < |jobs| ==>
      jobs[k].index < |chunks| && jobs[k].name == BatchName(jobs[k].index) &&
      jobs[k].files == chunks[jobs[k].index] && !remoteHas(jobs[k].name)) &&
    (forall k, l :: 0 <= k < l < |jobs| ==> jobs[k].index < jobs[l].index)
  }

  /** Every pending job names and carries the batch at its own index. */
  lemma {:induction false} PendingBatchesSound(chunks: seq<seq<ManifestFile>>, remoteHas: string -> bool)
    ensures JobsMatchBatches(chunks, remoteHas, PendingBatches(chunks, remoteHas))
  {
    if chunks != [] {
      var last := |chunks| - 1;
      var init := chunks[..last];
      PendingBatchesSound(init, remoteHas);
      var prefix := PendingBatches(init, remoteHas);
      var tail := if remoteHas(BatchName(last)) then [] else [TarJob(last, BatchName(last), chunks[last])];
      var jobs := prefix + tail;
      assert PendingBatches(chunks, remoteHas) == jobs;
      forall k | 0 <= k < |jobs|
        ensures jobs[k].index < |chunks| && jobs[k].name == BatchName(jobs[k].index)
        ensures jobs[k].files == chunks[jobs[k].index] && !remoteHas(jobs[k].name)
        ensures k < |prefix| ==> jobs[k].index < last
      {
        if k < |prefix| {
          assert jobs[k] == prefix[k];
          assert init[prefix[k].index] == chunks[prefix[k].index];
        } else {
          assert jobs[k] == tail[0];
        }
      }
      forall k, l | 0 <= k < l < |jobs|
        ensures jobs[k].index < jobs[l].index
      {
        if l < |prefix| {
          assert jobs[k] == prefix[k] && jobs[l] == prefix[l];
        }
      }
    }
  }

  /** Every batch whose object is missing remotely gets a job. */
  lemma {:induction false} PendingBatchesComplete(chunks: seq<seq<ManifestFile>>, remoteHas: string -> bool, i: nat)
    requires i < |chunks| && !remoteHas(BatchName(i))
    ensures TarJob(i, BatchName(i), chunks[i]) in PendingBatches(chunks, remoteHas)
  {
    var last := |chunks| - 1;
    var init := chunks[..last];
    var job := TarJob(i, BatchName(i), chunks[i]);
    var tail := if remoteHas(BatchName(last)) then [] else [TarJob(last, BatchName(last), chunks[last])];
    assert PendingBatches(chunks, remoteHas) == PendingBatches(init, remoteHas) + tail;
    if i < last {
      assert init[i] == chunks[i];
      PendingBatchesComplete(init, remoteHas, i);
      assert job in PendingBatches(init, remoteHas);
    } else {
      assert tail == [job];
    }
  }

  /** The loop of `uploadSmallFiles` (src/commands/sync.ts:192-203) up to the
      point of packing: `tarIndex` advances for every batch, so batch `i` is
      named `batch-i.tar.gz` even when earlier batches were skipped because
      their object already exists. */
  method PlanTarUploads(chunks: seq<seq<ManifestFile>>, remoteHas: string -> bool)
    returns (jobs: seq<TarJob>)
    ensures jobs == PendingBatches(chunks, remoteHas)
  {
    jobs := [];
    var tarIndex := 0;
    for i := 0 to |chunks|
      invariant tarIndex == i
      invariant jobs == PendingBatches(chunks[..i], remoteHas)
    {
      assert chunks[..i + 1][..i] == chunks[..i];
      var chunk := chunks[i];
      var tarFileName := BatchName(tarIndex);
      tarIndex := tarIndex + 1;
      if remoteHas(tarFileName) {
        continue;
      }
      jobs := jobs + [TarJob(i, tarFileName, chunk)];
    }
    assert chunks[..|chunks|] == chunks;
  }
}
