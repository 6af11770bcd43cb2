# simple-snowball-sync, modelled in Dafny

This project models the decision logic of `simple-snowball-sync`. The tool
makes a manifest of a directory tree, then copies the files it lists into an
S3 bucket (typically an AWS Snowball device). Big files are uploaded one by
one. Small files are bundled into tar batches. An interrupted run resumes
where the last one stopped.

The model covers these parts:

- **S3 locations and the resume point** (`s3.dfy`, module `S3`):
  - `Parse` turns an `s3://bucket/key` location into a bucket and a key.
  - `FindUploaded` finds where an earlier upload of an ordered file list
    stopped. It runs a binary search of at most 51 existence probes, then a
    linear check of a window of ±5 files around the boundary, which also
    compares sizes. The remote side is an oracle `nat -> Head`: file `i` is
    `Missing`, or `Present` with an optional stored length.
- **Sync planning** (`sync.dfy`, module `Sync`):
  - the endpoint rule;
  - the split into big and small files;
  - cutting small files into tar batches;
  - the `Stats` counters as a class, with the resume bookkeeping;
  - the name of each tar batch, and which batches are still to be uploaded.
- **The manifest store** (`manifest_loader.dfy`, module `ManifestStore`):
  - the class `ManifestLoader`, whose path-keyed, insertion-ordered
    JavaScript `Map` is a `map` plus a key-order `seq`;
  - `setHash`, `dirty`, `filter` and `toJson`. The one-shot write timer is
    a boolean.
  - `isManifestsDifferent`, stated only as its unit test pins it down.
- **Upload retries** (`upload.dfy`, module `Upload`):
  - `UploadFile` is a loop over per-attempt outcomes with a linear back-off;
  - every failure is collected into an `ErrorList` (`error_list.dfy`,
    module `ErrorLists`).
- **Manifest creation** (`create_manifest.dfy`, module `CreateManifest`):
  - a depth-first traversal of an abstract directory tree;
  - the size total;
  - the manifest file name.

Shared pieces:

- `manifest.dfy` (module `ManifestTypes`): the manifest records, their size
  sum, and an order-keeping filter.
- `strings.dfy` (module `Strings`): JavaScript's `split`, `join`,
  `startsWith`, `endsWith` and `trim() === ''` on `seq<char>`, and decimal
  printing.
- `results.dfy` (module `Results`): `Option` and `Result`.

A thrown JavaScript error becomes an `Err` result or a `Some(message)`
error value. Paths use the POSIX separator `/`.

The model follows the code where it departs from the documented intent:

- `toJson` writes no `correlationId`.
- The dirty-write timer is armed once and never re-armed, because
  `_dirtyTimeout` is never cleared.
- `create-manifest` records every file the walk yields. That includes
  zero-length entries and a manifest file lying inside the tree.

## Model

| member | source | states |
|---|---|---|
| S3.Parse | src/s3.ts:8-17 | a location is accepted only if it starts with `s3://`, its bucket (third `/`-part) is not blank and holds no `/`, and its key (the later parts rejoined) is not blank |
| S3.ParseRoundTrip | src/s3.ts:11-16 | `s3://b/k` parses back to bucket `b` and key `k` for any `/`-free non-blank `b` and non-blank `k`, even when `k` holds `/` |
| S3.ParseSound | src/s3.ts:8-17 | whatever is accepted is exactly `"s3://" + bucket + "/" + key` |
| S3.ParseNeedsKey | src/s3.ts:14-15 | `s3://b` and `s3://b/` are both refused: the key is empty |
| Strings.JoinSplit | src/s3.ts:11-14 | joining the parts of a split with the same separator gives the string back |
| S3.UnsignedMidpoint | src/s3.ts:28 | `(a + b) >>> 1` is the sum modulo 2^32, halved: below 2^31 always, and the plain midpoint whenever the sum fits in 32 bits |
| S3.ProbeRecordPresent | src/s3.ts:37-39 | a probe answered present, recorded by the `mid > foundUploaded` rule, keeps `foundUploaded` the highest probe answered present and `foundNotUploaded` the lowest answered missing |
| S3.ProbeRecordMissing | src/s3.ts:40-42 | a probe answered missing, recorded by the `mid < foundNotUploaded \|\| foundNotUploaded === -1` rule, keeps the same two facts |
| S3.RunRecorded | src/s3.ts:27-47 | whatever the oracle answers, the loop stops with an empty range or after 51 probes, every probe lies inside the list, and the two reported indices are the highest probe answered present and the lowest answered missing (`-1` when no probe gave that answer) |
| S3.RunShort | src/s3.ts:27-47 | for a list of at most 2^31 files, every round keeps the unprobed range flanked by the two reported indices and narrower than the probes left allow |
| S3.SearchOutcome | src/s3.ts:21-47 | a whole search makes at most 51 probes, all inside the list, and reports the highest probe answered present and the lowest answered missing; for a list of at most 2^31 files it makes no more probes than there are files, the present index lies below the missing one, and over a remote prefix of length `k` they are `k-1` and `k` (or `-1` where none) |
| S3.SearchBoundary | src/s3.ts:21-48 | the loop computes the search function from the start state, so it reports the probes it made, the highest one answered present and the lowest one answered missing, with the bounds and the prefix boundary of the whole search |
| S3.VerifyWindow | src/s3.ts:54-65 | returns the first index of the window whose object is missing or of another size (the window's `FirstMismatch`), or none when every file there matches |
| S3.FirstMismatchIsFirst | src/s3.ts:54-65 | the linear pass finds an index of the range that needs uploading and no earlier one, and finds none only when no index of the range needs uploading |
| S3.SearchOfPrefix | src/s3.ts:21-47 | over a remote prefix of length `k` of a list of at most 2^31 files, the search reports `k-1` and `k`, with `-1` at either end |
| S3.ResumePointFromWindow | src/s3.ts:50-66 | whatever the oracle answers, probes all answered present give the list length, probes all answered missing give 0, and otherwise the resume point is the first mismatch of `[max(0,fu-5), min(fnu+5,len))` around the search's two indices, or `Failed` when that window has none |
| S3.ResumePointNeverFails | src/s3.ts:50-66 | for a list of at most 2^31 files the window always holds the index seen missing, so the `Failed` throw is not reached |
| S3.ResumePointOfPrefix | src/s3.ts:20-67 | over a remote prefix of length `k` of a list of at most 2^31 files, the resume point is exactly `k` |
| S3.ResumeWhenOnlyLastPresent | src/s3.ts:27-51 | on three files of which only the last is stored remotely, the search probes index 1 and then index 0, and the resume point is 0 |
| S3.FindUploaded | src/s3.ts:20-67 | its probes and its reported indices are those of the search run from the start state, and its answer is `ResumePoint`, the answer that search determines, for every oracle: the list length if every probe answered present, 0 if every probe answered missing, otherwise the first mismatch in `[max(0,fu-5), min(fnu+5,len))` or the error `Failed`; for a list of at most 2^31 files it is never the error, and a remote prefix of length `k` gives exactly `k` |
| Sync.NormalizeEndpoint | src/commands/sync.ts:70-71 | an endpoint not starting with `http` becomes `http://` + it + `:8080`; one starting with `http`, or none, is kept |
| Sync.NormalizeEndpointIdempotent | src/commands/sync.ts:71 | normalising twice is normalising once |
| Sync.PartitionSplits | src/commands/sync.ts:86-92 | the size filters keep exactly the files over, and at most, the threshold, and together they hold every file occurrence once |
| Sync.PartitionBySize | src/commands/sync.ts:86-92 | big files are exactly those over `filter·1024·1024` bytes, small files the rest, both in manifest order, and together a permutation of the input |
| Sync.ChunkSmallFiles | src/commands/sync.ts:250-264 | the batches laid end to end are the input; each is non-empty and has at most 10,001 files; each is within 10,000 files and 5 GiB before its last file; every batch but the last exceeds a cap; no input gives no batches |
| Sync.FirstBatchNotShorter | src/commands/sync.ts:256-260 | two cuttings obeying the batch rule cannot close their first batch at different lengths |
| Sync.TarChunkingUnique | src/commands/sync.ts:250-264 | the batch rule admits only one cutting of a list, so the greedy one is the only one |
| Sync.Stats.constructor | src/commands/sync.ts:15-26 | all counters start at zero |
| Sync.Stats.ResumeFrom | src/commands/sync.ts:150-151 | `count` grows by the resume index and `progressSize` by the sizes of the skipped files; nothing else changes |
| Sync.StartBigUploads | src/commands/sync.ts:148-154 | it fails exactly when `findUploaded`'s answer `S3.ResumePoint` is the error, and otherwise the files still to upload are exactly the suffix after that resume index, whatever the remote holds, and `count` and `progressSize` are credited with the skipped prefix while `size`, `totalFiles` and `totalSize` are kept; a failed search changes nothing; for a list of at most 2^31 files the search never fails, and a remote prefix of length `k` resumes at `k` |
| Sync.BatchName | src/commands/sync.ts:194 | a batch object is named `batch-…` and ends in `.tar.gz` |
| Sync.BatchNameInjective | src/commands/sync.ts:192-194 | distinct batch indices give distinct names |
| Sync.PendingBatchesSound | src/commands/sync.ts:192-203 | each planned job is the batch at its own index, under `batch-<index>.tar.gz`, absent remotely, in increasing index order, so skipped batches do not shift later names |
| Sync.PendingBatchesComplete | src/commands/sync.ts:192-203 | every batch whose object is absent remotely is planned |
| Sync.PlanTarUploads | src/commands/sync.ts:192-203 | the loop with its `continue` plans exactly the pending batches |
| ManifestStore.IndexByPathShape | src/manifest.loader.ts:15 | the keys built from a file list are exactly its paths, each file sits under its own path, and the key order lists each key once |
| ManifestStore.IndexByPathLastWins | src/manifest.loader.ts:15 | a path maps to the last file listed with that path |
| ManifestStore.InsertionOrderOfDistinct | src/manifest.loader.ts:15 | with distinct paths, the key order is the list order |
| ManifestStore.ReloadRoundTrip | src/manifest.loader.ts:55-67 | loading the serialised file list rebuilds the same map and key order |
| ManifestStore.ManifestLoader.constructor | src/manifest.loader.ts:12-16 | the map is indexed by path (last entry wins, first-insertion order), the root and source paths are kept, and the loader is clean with no timer armed |
| ManifestStore.ManifestLoader.Dirty | src/manifest.loader.ts:44-53 | the loader is dirty with a timer armed, and at most one timer is ever armed |
| ManifestStore.ManifestLoader.SetHash | src/manifest.loader.ts:27-34 | an unknown path gives `File not found: <path>` and changes nothing; an equal digest changes nothing; otherwise only that file's digest changes and the loader turns dirty |
| ManifestStore.ManifestLoader.Filter | src/manifest.loader.ts:36-42 | exactly the files the predicate accepts, in map order |
| ManifestStore.ManifestLoader.ToJson | src/manifest.loader.ts:55-67 | keeps the root path, lists the files in map order, gives their total size, and reloads into the same map |
| ManifestStore.SupersetIsNotDifferent | src/__test__/manifest.loader.test.ts:40-46 | a candidate holding every reference file unchanged, itself included, is not different |
| ManifestStore.UnsetCandidateHashIsNotDifferent | src/__test__/manifest.loader.test.ts:56-58 | a candidate with unset digests but the same files and sizes is not different |
| ManifestStore.TestManifestFile | src/__test__/manifest.loader.test.ts:61-83 | the test's file builder keeps the path; the digest is unset exactly for `empty`; the size is non-zero for a non-empty path |
| ManifestStore.DifferentFilesDiffer | src/__test__/manifest.loader.test.ts:36-38 | manifest A (one Canterbury file) is different from manifest B (one Otago file) |
| ManifestStore.SameManifestNotDifferent | src/__test__/manifest.loader.test.ts:40-42 | manifest A is not different from itself |
| ManifestStore.AdditionalFileNotDifferent | src/__test__/manifest.loader.test.ts:44-46 | manifest C, which holds B's file and one more, is not different from B |
| ManifestStore.ChangedSizeDiffers | src/__test__/manifest.loader.test.ts:48-50 | manifest B is different from D, which gives the same path size 123 |
| ManifestStore.ChangedHashDiffers | src/__test__/manifest.loader.test.ts:52-54 | manifest D is different from E, which gives the same file the digest `abc` |
| ManifestStore.UnsetHashNotDifferent | src/__test__/manifest.loader.test.ts:56-58 | manifest F, whose file has no digest, is not different from E |
| Upload.UploadFile | src/upload.ts:30-46 | at most `count` calls; success at the first successful attempt after only failures; otherwise exactly `count` calls and an `UploadRetriesFailed` ErrorList of every error in attempt order; the wait after failure `j` is `time·j` ms, after the last failure too |
| Upload.DefaultBackOffGivesUp | src/upload.ts:15-20 | with the exported default of 3 attempts and a 500 ms unit, an upload that always fails is called exactly 3 times (the call count the unit test checks), waits 500, 1000 and 1500 ms, and fails with `UploadRetriesFailed` listing the three errors |
| Upload.DefaultBackOffRetries | src/upload.ts:15-20 | with the default back-off, an upload that fails once and then succeeds is called exactly twice (the call count the unit test checks) and succeeds after one 500 ms wait |
| ErrorLists.NewErrorList | src/error.list.ts:4-10 | the errors are kept unchanged, the name is `ErrorList`, and the message starts with `msg + ": "` |
| ErrorLists.MessageContainsEach | src/error.list.ts:8 | every underlying message occurs in the aggregate message |
| ErrorLists.StackContainsEach | src/error.list.ts:9 | every underlying stack occurs in the aggregate stack |
| ErrorLists.EmptyErrorList | src/error.list.ts:8-9 | with no errors the message is `msg + ": "` and the stack is empty |
| CreateManifest.ParseDirectory | src/commands/manifest.ts:8-19 | as many paths as there are files in the tree; directories are not counted |
| CreateManifest.ParseDirectorySound | src/commands/manifest.ts:8-19 | every yielded path is the joined chain of names from the base to a file in the tree |
| CreateManifest.ParseDirectoryComplete | src/commands/manifest.ts:8-19 | the joined chain of names of every file in the tree is yielded |
| CreateManifest.ReplaceChar | src/commands/manifest.ts:56 | every occurrence of the character is replaced and nothing else changes |
| CreateManifest.ManifestName | src/commands/manifest.ts:53-56 | exactly one leading separator dropped if there is one, then exactly one trailing separator if there is one, every other separator and space turned into `_`, and `.manifest.json` appended |
| CreateManifest.ManifestNameOfPlainName | src/commands/manifest.ts:53-56 | a name with no separator or space is kept and only suffixed |
| CreateManifest.Run | src/commands/manifest.ts:28-59 | a non-directory gives no manifest; a directory gives one entry per file in traversal order, with its size, the resolved root path and the total size, under the derived name |

## Left out

- S3 calls, the tar-stream and gzip pipeline, file reads and writes, and the `Q` concurrency limiter are left out. They are I/O and concurrency. `headObject` is the oracle `head`, and the state of a remote batch object is the predicate `remoteHas`.
- The `Promise.all` joins every 1000 uploads and the `Upload:Progress` and `Manifest:Progress` logging are left out. They only pace and report.
- The `watchManifest` and `watchStats` intervals are left out: they are timers, and their speed and percent are floating point.
- The counter updates that follow uploads are left out, because each one comes after upload I/O. For big files, `Stats.count++` and `Stats.size += file.size` run in each upload's concurrent completion callback (src/commands/sync.ts:173-174). For small files, `Stats.size += totalSize` and `Stats.count += chunk.length` run once per tar batch, after that batch's upload, in the sequential loop of `uploadSmallFiles` (src/commands/sync.ts:244-245).
- The digest assignment `file.hash = 'sha256-…'` during upload is left out. It comes from node's `crypto`, a foreign call.
- The timer callback of `dirty` is left out. It writes `toJson()` to `<source>.1` after 15 s, which is I/O; only the armed flag is kept.
- `ManifestLoader.load` and `toJsonString` are left out: they are a file read and JSON text.
- `headObject` errors other than `NotFound` are not modelled. They would propagate out of `findUploaded`.
- The remote side is fixed for the length of one search; concurrent writers are not modelled.
- Files are values, not shared objects. So the aliasing between the manifest's file records and the loader's map entries is not captured: a `setHash` through one is not seen through the other.
- The run's validation of `--target` and of the `.json` input suffix is not modelled. The same goes for reading the `.1` resume file, the upload of the manifest itself, and the final write.
- `path.resolve` of the input is a parameter (`inputPath`).
- `path.join` is plain joining with `/`. Its normalisation of `.`, `..` and repeated separators is not modelled.
- Manifest creation's `fs.stat` sizes are a function `sizeOf`, and the directory tree is a value (`Entry`).
- JavaScript numbers are unbounded integers here. The one exception is the search midpoint `(low + high) >>> 1`, which reduces the sum modulo 2^32 as JavaScript does (`S3.UnsignedMidpoint`).
- The `throw new Error('Failed')` of src/s3.ts:66 is reached for a list of at most 2^31 files only if the remote side changes between a search probe and the window check. A changing remote side is not modelled.
- Telemetry, AWS credential set-up, version lookup, the `hash` and `validate` commands, and the CLI wiring are not part of this model.
- `isManifestsDifferent`: its implementation is not among the loader's source. `ManifestStore.IsManifestsDifferent` is derived only from the assertions of its unit test, so the direction of the comparison and the treatment of unset digests follow that test.
- S3.FindUploaded: the result `k` for a remote prefix of length `k`, and the absence of the `Failed` error, are promised only for lists of at most 2^31 files. For longer lists the midpoint wraps around and can fall below `low`, so the search can report a boundary other than the prefix's end. The model computes that same midpoint, and the result is still `S3.ResumePoint` of that search, but it is not promised to be `k` and it can be `Failed`.
- S3.SearchBoundary: the order of the two reported indices and the prefix boundary hold under the same 2^31 bound.
- Sync.StartBigUploads: it inherits the 2^31 bound of `S3.FindUploaded` for the prefix result and the absence of `Failed`; its tie to `S3.ResumePoint` holds for every list.
- ErrorLists.NewErrorList: the contract states the prefix and, through `MessageContainsEach` and `StackContainsEach`, that every message and stack occurs in the result. It does not state the exact `", "`- and `"\n\n"`-joined text, which only the body spells out.
