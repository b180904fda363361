# s3bin in Dafny

s3bin keeps large binary files out of version control. It stores them in an
S3 bucket and leaves a small text pointer file beside each one.

- `Put(path)` does the following:
  - hashes the file with SHA-1;
  - uploads a gzip-compressed tar envelope under a key made from the first 20 hex digits of the hash;
  - only then writes the 40-digit hash into `path.sha1`.
- `Get(file.sha1)` does the following:
  - reads and normalises the pointer (TrimSpace, ToLower);
  - does nothing if the target exists and already hashes to it;
  - otherwise downloads the envelope and checks it: first entry `header` with JSON version 1, second entry `data`;
  - writes the data into the target and gives it the archived mode.
- `GetDir(root)` walks a directory tree and calls `Get` on every `.sha1` file. It recursively calls `GetDir` on each sub-directory.

Module structure:

- `Text`: byte/character views, ASCII `TrimSpace`/`ToLower`, the 40-hex digest shape, `strings.TrimSuffix`, and `filepath.Ext`.
- `StoreKeys`: `storeKey`.
- `Failures`: the error values, with `Option` and `Result`.
- `Envelope`: the `Header` JSON codec and the tar envelope, as a sequence of entries.
- `Sync`: the pure specification of `Put` and `Get` over a world made of the local disk and the bucket.
- `Batch`: the pure specification of `GetDir` as Go's `filepath.Walk` with GetDir's callback.
- `S3BinImpl`: the program's own form.
  - Class `LocalFs` holds the local files.
  - Class `Bucket` holds the bucket.
  - Class `S3Bin` has `Put`, `Get` and `GetDir` written step by step with their early returns.
  - Each method's postcondition says that the outcome and the new state equal what `Sync.PutSpec`, `Sync.GetSpec` or `Batch.GetDirSpec` computes from the old state. Every lemma about those functions therefore holds for the methods.

The model's parameters:

- The SHA-1 function is a parameter `sha1: Bytes -> string`. Where the proof needs the hash to produce 40 lowercase hex digits, `ValidHasher(sha1)` is assumed as a precondition.
- Failures of the file system and of the bucket are state:
  - sets of paths where reading, creating/writing, or chmod fails;
  - whether the bucket can be reached.

## Model

| member | source | states |
|---|---|---|
| StoreKeys.StoreKey | cmd/s3bin/s3bin.go:279-282 | The key has 24 characters: the first 20 characters of the hash in groups of 4, separated by `/`. |
| StoreKeys.StoreKeyDeterminedByPrefix | cmd/s3bin/s3bin.go:279-282 | Two hashes give the same key exactly when their first 20 characters agree. |
| StoreKeys.StoreKeyHasFourSlashes | cmd/s3bin/s3bin.go:280-281 | A hash prefix without `/` gives a key with exactly four `/`. |
| StoreKeys.DigestKeyShape | cmd/s3bin/s3bin.go:276-281 | A SHA-1 hex digest always gives a 24-character key with four `/` separators. |
| Text.TrimSpace | cmd/s3bin/s3bin.go:154 | The result has no leading or trailing whitespace and is never longer than the input. |
| Text.TrimSpacePadded | cmd/s3bin/s3bin.go:154 | Trimming text surrounded only by whitespace gives back exactly that text. |
| Text.ToLowerNormalises | cmd/s3bin/s3bin.go:154 | ToLower leaves no upper-case letter and does not change text that has none. |
| Text.ToLower | cmd/s3bin/s3bin.go:154 | Same length as the input; ToLowerNormalises proves that it leaves no upper-case letter and changes nothing in text without one. |
| Text.NormalizePointer | cmd/s3bin/s3bin.go:154 | ToLower(TrimSpace(s)): never longer than the input and free of upper-case letters; NormalizeDigest and NormalizePaddedPointer pin its value on digests. |
| Text.NormalizeDigest | cmd/s3bin/s3bin.go:154 | The pointer normalisation leaves a digest written by calcSha1 unchanged. |
| Text.NormalizePaddedPointer | cmd/s3bin/s3bin.go:154-155 | A pointer of 40 hex digits, in any case and padded with whitespace, normalises to a lowercase digest. |
| Text.CharsOfBytesOf | cmd/s3bin/s3bin.go:135 | Writing hex text as bytes and reading those bytes back as text gives the same text. |
| Text.TrimSuffix | cmd/s3bin/s3bin.go:144-147 | Exactly one trailing `.sha1` is dropped when present, and the text is otherwise unchanged. |
| Text.Ext | cmd/s3bin/s3bin.go:255 | The result is empty, or it is a suffix of the path that starts with the last dot and contains no other dot or `/`. |
| Text.ExtIsPointerSuffix | cmd/s3bin/s3bin.go:255 | `filepath.Ext(p) == ".sha1"` holds exactly when `strings.TrimSuffix` would shorten `p`. |
| Envelope.DigitsValueDecimal | cmd/s3bin/s3bin.go:207 | Reading back the decimal digits of n gives n. |
| Envelope.ParseIntText | cmd/s3bin/s3bin.go:207 | Parsing the JSON text of any integer gives that integer. |
| Envelope.DecodeHeader | cmd/s3bin/s3bin.go:206-210 | A decoded version always fits Go's 64-bit int. |
| Envelope.DecodeEncodeHeader | cmd/s3bin/s3bin.go:84-210 | Unmarshalling the header that json.Marshal wrote gives back its version, for every int64. |
| Envelope.EncodeHeader | cmd/s3bin/s3bin.go:80-87 | json.Marshal of the header: the text `{"version":N}`; DecodeEncodeHeader proves that decoding it gives back N. |
| Envelope.Pack | cmd/s3bin/s3bin.go:80-122 | Put's envelope has exactly two entries: first one named `header`, then `data` carrying exactly the file's bytes and mode. |
| Envelope.Unpack | cmd/s3bin/s3bin.go:186-223 | The data and mode come back exactly when every check passes: gzip opens, the first entry is `header`, its JSON is version 1, and a second entry named `data` follows. Another version is reported with its number, and a blob whose first entry is not `header` is rejected. |
| Envelope.UnpackPack | cmd/s3bin/s3bin.go:80-223 | Unpacking what Put packed gives back exactly the file's bytes and mode. |
| Envelope.SwappedEntriesRejected | cmd/s3bin/s3bin.go:197-199 | An envelope with data first is rejected with "no header". |
| Envelope.OtherVersionStopsBeforeData | cmd/s3bin/s3bin.go:212-214 | A header of another version stops the reading before the second entry, whatever that entry is. |
| Envelope.SecondEntryMustBeData | cmd/s3bin/s3bin.go:216-223 | A valid header followed by a non-`data` entry is rejected. |
| Sync.ReadLocal | cmd/s3bin/s3bin.go:149-152 | A read succeeds exactly when the file exists and is readable. A failure names the path and distinguishes a missing file from a denied read. |
| Sync.CalcSha1 | cmd/s3bin/s3bin.go:263-277 | Succeeds exactly when the read succeeds, with the hash of the contents; otherwise it passes on the read error. |
| Sync.PointerPath | cmd/s3bin/s3bin.go:133-144 | TrimSuffix of the pointer path gives back the file path, and the two paths differ. |
| Sync.WriteLocal | cmd/s3bin/s3bin.go:135 | The written file exists afterwards with exactly the given bytes; no other path is added. |
| Sync.PutSpec | cmd/s3bin/s3bin.go:63-141 | Put's steps and early returns; its behaviour is stated by PutFailsExactly, PutStoresThenPoints, PutFailedUploadWritesNoPointer, PutWritesOnlyAfterUpload and PutIdempotent. |
| Sync.PutFailsExactly | cmd/s3bin/s3bin.go:63-141 | Put returns nil exactly when the file can be read, the bucket can be reached and the pointer file can be written. A read error is returned unchanged with nothing sent; otherwise an unreachable bucket gives the store error for the key, and a denied pointer write gives the write error. |
| Sync.PutStoresThenPoints | cmd/s3bin/s3bin.go:63-141 | A successful Put has done three things: stored Pack(file) under StoreKey(sha1(file)), sent one PUT, and written the digest into `path.sha1`. No other file changed. |
| Sync.PutFailedUploadWritesNoPointer | cmd/s3bin/s3bin.go:124-131 | If the upload fails, the local files and the stored objects are unchanged. |
| Sync.PutWritesOnlyAfterUpload | cmd/s3bin/s3bin.go:124-138 | Put changes the local disk only when it succeeds, the bucket was reachable, and exactly one PUT was sent. |
| Sync.PutIdempotent | cmd/s3bin/s3bin.go:63-141 | A second Put of an unchanged file succeeds, leaves the disk and the objects the same, and only repeats the request. |
| Sync.Restore | cmd/s3bin/s3bin.go:225-241 | Writing the target never touches the bucket. |
| Sync.Fetch | cmd/s3bin/s3bin.go:173-241 | Downloading sends exactly one GET, for the digest's key, and changes no stored object. |
| Sync.PointerDigest | cmd/s3bin/s3bin.go:154 | The normalised pointer text is never longer than the file. |
| Sync.GetSpec | cmd/s3bin/s3bin.go:143-242 | Get's steps and early returns; its behaviour is stated by the Get lemmas below (GetRequiresSuffix through PutDeleteGetRestores), with GetNilCauses saying when it returns nil. |
| Sync.GetNilCauses | cmd/s3bin/s3bin.go:143-242 | Get returns nil only after reading a pointer with the `.sha1` suffix. InvalidPointer comes exactly when the digest is not 40 characters, and UpToDate only when the target hashes to the digest. Fetched and UnsupportedVersion come only after a reachable bucket returned an envelope for the key that unpacked to a payload or to another version; Fetched leaves exactly that payload in the target. Every other path returns an error. |
| Sync.GetRequiresSuffix | cmd/s3bin/s3bin.go:144-147 | A path without `.sha1` fails with that error and changes nothing; that error arises for no other path. |
| Sync.GetInvalidPointerStops | cmd/s3bin/s3bin.go:154-157 | A pointer that is not 40 characters after normalising stops Get with a nil error and changes nothing. |
| Sync.GetUpToDateStaysLocal | cmd/s3bin/s3bin.go:159-163 | A target whose hash equals the pointer's digest is reported up to date, and nothing changes. |
| Sync.GetUnreadableTargetFails | cmd/s3bin/s3bin.go:167-171 | A target that exists but cannot be read makes Get fail with that read error, and nothing changes. |
| Sync.GetFetchesOnlyWhenStale | cmd/s3bin/s3bin.go:143-184 | Get never changes the objects and sends at most one GET. That GET is for the key of a valid pointer's digest, and is sent only when the target is missing or differs from the digest. |
| Sync.GetFetchesWhenStale | cmd/s3bin/s3bin.go:8-10 | The converse: a valid pointer whose target is missing, or readable and different from the digest, makes Get download (it equals Fetch, with exactly one GET for the digest's key). With GetFetchesOnlyWhenStale, Get downloads if and only if the target is missing or stale. |
| Sync.RestoreWritesTarget | cmd/s3bin/s3bin.go:225-239 | Restoring changes no file but the target. |
| Sync.FetchWritesOnlyPayload | cmd/s3bin/s3bin.go:175-239 | A download changes the disk only after the envelope has unpacked to a payload, and then leaves the payload in the target. |
| Sync.RestoreResults | cmd/s3bin/s3bin.go:225-239 | Restore ends in one of three ways. A failed os.Create changes nothing. A failed Chmod leaves the payload written under the created or previous mode. Success leaves the payload under the archived mode. |
| Sync.FetchUnavailable | cmd/s3bin/s3bin.go:175-183 | An unreachable bucket or a missing key makes the download fail with the store error for that key, and the local files stay untouched. |
| Sync.FetchNilCauses | cmd/s3bin/s3bin.go:175-241 | A download never yields InvalidPointer or UpToDate. Fetched or UnsupportedVersion means the bucket held the key and the envelope unpacked to a payload, written exactly into the target, or to that other version. |
| Sync.GetWritesOnlyCheckedPayload | cmd/s3bin/s3bin.go:143-242 | Get writes no file but the target. It writes even that only when the stored envelope passed every check, and then the target holds that envelope's data. |
| Sync.FetchedLeavesTarget | cmd/s3bin/s3bin.go:225-241 | A download that returns nil after writing has left the target on disk. |
| Sync.GetSuccessLeavesTarget | cmd/s3bin/s3bin.go:159-241 | When Get ends by fetching the file or finding it up to date, the target exists afterwards. |
| Sync.PutThenGetIsUpToDate | cmd/s3bin/s3bin.go:63-171 | Right after a successful Put, Get on the new pointer reports up to date and never contacts the bucket. |
| Sync.GetRestoresPutFile | cmd/s3bin/s3bin.go:143-242 | The bucket may hold Put's envelope for a file under its digest's key. When the target is missing or stale, Get then restores exactly that file's bytes and mode. It changes no other file and sends one GET. |
| Sync.PutDeleteGetRestores | cmd/s3bin/s3bin.go:63-242 | Put a file, delete it, then Get its pointer: the file is back with the same bytes and mode. |
| Sync.InvalidPointerReportsSuccess | cmd/s3bin/s3bin.go:155-157 | As written: a one-byte pointer makes Get return nil while the target is still missing. |
| Sync.UnsupportedVersionReportsSuccess | cmd/s3bin/s3bin.go:212-214 | As written: a version-2 envelope makes Get return nil while the target is still missing. |
| Sync.CorrectedOutcome | cmd/s3bin/s3bin.go:155-214 | With both paths corrected, Get returns nil exactly when it fetched the file or found it up to date. |
| Sync.CorrectedGetSpec | cmd/s3bin/s3bin.go:143-242 | The corrected Get changes the world exactly as Get does. |
| Sync.CorrectedSuccessMeansTargetPresent | cmd/s3bin/s3bin.go:143-242 | When the corrected Get returns nil, the target file exists. |
| Sync.CorrectedRejectsInvalidPointer | cmd/s3bin/s3bin.go:155-157 | The corrected Get reports a malformed pointer as an error. |
| Sync.CorrectedRejectsOtherVersion | cmd/s3bin/s3bin.go:212-214 | The corrected Get reports another envelope version as an error carrying that version. |
| Batch.Callback | cmd/s3bin/s3bin.go:246-259 | GetDir's callback: a walk error is returned, a sub-directory other than the root starts a nested GetDir, other paths go to VisitFile; CallbackSound states what it keeps. |
| Batch.Walk | cmd/s3bin/s3bin.go:245-260 | filepath.Walk on one path: the callback, then the entries unless it stopped; WalkSound and WalkReachesPointers state its behaviour. |
| Batch.WalkEntries | cmd/s3bin/s3bin.go:245-260 | The entries of a directory in order, up to the first error; WalkEntriesSound and WalkEntriesReachPointers state its behaviour. |
| Batch.GetDirSpec | cmd/s3bin/s3bin.go:244-261 | GetDir(root) is the walk rooted at root; GetDirSound, GetDirFailsOnlyThroughGet, GetDirNilIffGetsNil, GetDirReachesEveryPointer and NestedPointerVisitedTwice state its behaviour. |
| Batch.VisitFile | cmd/s3bin/s3bin.go:255-259 | The callback calls Get on a file exactly when its extension is `.sha1`, and at most once; on any other path it returns nil and leaves the world unchanged. |
| Batch.SoundSequence | cmd/s3bin/s3bin.go:245-260 | Two walk segments, the second started only after the first returned nil, together still satisfy the walk invariant. |
| Batch.CallbackSound | cmd/s3bin/s3bin.go:246-259 | Each callback call keeps the walk invariant. |
| Batch.VisitFileSound | cmd/s3bin/s3bin.go:255-259 | Visiting one file keeps the walk invariant. |
| Batch.WalkSound | cmd/s3bin/s3bin.go:245-260 | Walking any subtree keeps the walk invariant. |
| Batch.WalkEntriesSound | cmd/s3bin/s3bin.go:245-260 | Walking any sequence of directory entries keeps the walk invariant. |
| Batch.GetDirSound | cmd/s3bin/s3bin.go:244-261 | Four guarantees: Get is called only on `.sha1` paths, which all pass Get's suffix check; every Get call but the last returned nil; a nil result means every call did; an error other than a walk error is the last Get's error. |
| Batch.VisitedConcat | cmd/s3bin/s3bin.go:245-260 | The paths visited by two walk segments in sequence are the union of each segment's paths. |
| Batch.WalkReachesPointers | cmd/s3bin/s3bin.go:245-260 | A walk of a subtree that returns nil has called Get on every `.sha1` file in it. |
| Batch.WalkEntriesReachPointers | cmd/s3bin/s3bin.go:245-260 | A walk of a directory's entries that returns nil has called Get on every `.sha1` file under them. |
| Batch.GetDirReachesEveryPointer | cmd/s3bin/s3bin.go:244-261 | A GetDir that returns nil has called Get on every `.sha1` file of the tree. |
| Batch.CallbackNoWalkError | cmd/s3bin/s3bin.go:246-259 | On a node with no unreadable node below it, the callback never returns a walk error. |
| Batch.WalkNoWalkError | cmd/s3bin/s3bin.go:244-261 | A walk of a tree with no unreadable node never returns a walk error. |
| Batch.EntriesNoWalkError | cmd/s3bin/s3bin.go:244-261 | A walk of entries with no unreadable node never returns a walk error. |
| Batch.VisitFileNoWalkError | cmd/s3bin/s3bin.go:255-259 | Visiting a file never returns a walk error: Get reports only its own errors. |
| Batch.GetDirFailsOnlyThroughGet | cmd/s3bin/s3bin.go:244-261 | On a tree the walk can read throughout, an error from GetDir is the `Failed` error of its last Get call; files without `.sha1` never cause one. |
| Batch.GetDirNilIffGetsNil | cmd/s3bin/s3bin.go:244-261 | On such a tree, GetDir returns nil exactly when every Get call it made returned nil. |
| Batch.ExampleVisit | cmd/s3bin/s3bin.go:255-259 | In the example tree, visiting the pointer file calls Get once, which returns nil. |
| Batch.ExampleDirectory | cmd/s3bin/s3bin.go:245-260 | In the example tree, walking the sub-directory from either root visits its pointer once. |
| Batch.NestedPointerVisitedTwice | cmd/s3bin/s3bin.go:251-252 | As written: in `r/d/a.sha1`, GetDir("r") calls Get on `r/d/a.sha1` twice. |
| Batch.Paths | cmd/s3bin/s3bin.go:259 | Helper over the model's record of Get calls: entry i is the path of call i. |
| Batch.PathsConcat | cmd/s3bin/s3bin.go:245-260 | The paths of two call sequences in a row are the two path lists concatenated. |
| Batch.WalkOnce | cmd/s3bin/s3bin.go:244-261 | The corrected walk, with a callback that ignores directories; WalkOnceVisitsEachPointerOnce states its behaviour. |
| Batch.WalkOnceEntries | cmd/s3bin/s3bin.go:244-261 | The corrected walk of a directory's entries; WalkOnceEntriesVisitEachPointerOnce states its behaviour. |
| Batch.WalkOnceVisitsEachPointerOnce | cmd/s3bin/s3bin.go:244-261 | The corrected walk of a subtree that returns nil calls Get exactly on its `.sha1` files, each once, in walk order. |
| Batch.WalkOnceEntriesVisitEachPointerOnce | cmd/s3bin/s3bin.go:244-261 | The corrected walk of a directory's entries that returns nil calls Get exactly on the `.sha1` files under them, each once, in walk order. |
| Batch.NestedPointerVisitedOnce | cmd/s3bin/s3bin.go:251-252 | On the same tree, the corrected GetDir calls Get on `r/d/a.sha1` once. |
| S3BinImpl.LocalFs.ReadFile | cmd/s3bin/s3bin.go:149 | Returns exactly the read result of the file-system state. |
| S3BinImpl.LocalFs.Create | cmd/s3bin/s3bin.go:225-228 | Fails on a denied path without changing anything. Otherwise the target is empty and keeps its previous mode, or gets 0666 if it is new. |
| S3BinImpl.LocalFs.Append | cmd/s3bin/s3bin.go:231 | The copied bytes are appended to the open target, and nothing else changes. |
| S3BinImpl.LocalFs.Chmod | cmd/s3bin/s3bin.go:236-239 | Fails on a denied path without changing anything; otherwise only the target's mode changes. |
| S3BinImpl.LocalFs.WriteFile | cmd/s3bin/s3bin.go:135-138 | Fails on a denied path without changing anything; otherwise the new state is the one WriteLocal specifies. |
| S3BinImpl.Bucket.PutObject | cmd/s3bin/s3bin.go:124-131 | Logs the PUT. When the bucket is reachable, it stores the blob under the key; otherwise it fails and stores nothing. |
| S3BinImpl.Bucket.GetObject | cmd/s3bin/s3bin.go:175-183 | Logs the GET and returns the stored blob; fails when the bucket is unreachable or the key is absent. |
| S3BinImpl.S3Bin.CalcSha1 | cmd/s3bin/s3bin.go:263-277 | The result equals `Sync.CalcSha1` on the current disk. |
| S3BinImpl.S3Bin.Put | cmd/s3bin/s3bin.go:63-141 | The error and the new disk and bucket equal `Sync.PutSpec` of the old state. |
| S3BinImpl.S3Bin.Get | cmd/s3bin/s3bin.go:143-242 | The outcome and the new state equal `Sync.GetSpec` of the old state, and the call is recorded. |
| S3BinImpl.S3Bin.Resolve | cmd/s3bin/s3bin.go:143-172 | Get's checks, step by step, end in `Sync.GetSpec` of the old state. |
| S3BinImpl.S3Bin.Download | cmd/s3bin/s3bin.go:173-241 | Fetching, unpacking and writing end in `Sync.Fetch` of the old state. |
| S3BinImpl.S3Bin.GetDir | cmd/s3bin/s3bin.go:244-261 | The error, the new state and the Get calls made equal `Batch.GetDirSpec` of the old state. |
| S3BinImpl.S3Bin.Walk | cmd/s3bin/s3bin.go:245-260 | One walk step, the callback and then the entries, equals `Batch.Walk`. |
| S3BinImpl.S3Bin.WalkDir | cmd/s3bin/s3bin.go:245-260 | The loop over a directory's entries, up to the first error, equals `Batch.WalkEntries`. |
| S3BinImpl.S3Bin.WalkFunc | cmd/s3bin/s3bin.go:246-259 | The callback equals `Batch.Callback`. |
| S3BinImpl.EntriesStep | cmd/s3bin/s3bin.go:245-260 | Walking one more entry extends the walk of the entries before it. |
| S3BinImpl.EntriesStopAtError | cmd/s3bin/s3bin.go:245-260 | After the first error, the remaining entries are not walked. |

## Left out

- The AWS session and client (`newS3Bin`), `main` and its flags, and all logging, including Get's progress messages. They are configuration and I/O; the bucket's effect is modelled as state.
- SHA-1 itself. The hash is a parameter, and only its output shape (40 lowercase hex digits) is assumed where needed.
- The gzip and tar byte formats. An envelope is its entry sequence, and a blob gzip cannot open is `Garbled`. Failures inside the tar writer, in `json.Marshal`, in `ioutil.ReadAll`, and on truncated archives are not modelled.
- JSON forms other than the compact `{"version":N}`: whitespace, key case, extra fields, `null`, floats, and the empty object, which Go decodes as version 0. The decoder treats them as unmarshal errors.
- Unicode. `TrimSpace` and `ToLower` are modelled for ASCII only; the pointer file's bytes are read one character per byte.
- Put's second `os.Open` and `Stat`, which cannot fail in the model once `calcSha1` has read the file. A failure of `io.Copy` into the target after a successful `os.Create` is not modelled either.
- The process umask, and the mode bits `os.FileMode` and `Chmod` ignore. Modes are plain numbers.
- Sorting, cleaning and symbolic links in `filepath.Walk`. The directory tree is given in walk order, and `filepath.Join` is plain concatenation with `/`.
- Changes to the tree during GetDir. The directory tree is a snapshot taken before the walk: `filepath.Walk` lists a directory only when it reaches it, so from depth 2 on a file that a nested Get restored (for example `x.sha1` from the pointer `x.sha1.sha1`) would itself be handed to Get as a pointer; the model does not visit files created during the walk.
- Concurrency: other processes changing files or the bucket during a call.

## Findings

| source | as written | input that shows it | evidently intended | confidence | as-written member | corrected member |
|---|---|---|---|---|---|---|
| cmd/s3bin/s3bin.go:155-157 | `errors.Wrapf(err, …)` with `err == nil` returns nil, so an invalid pointer counts as success | pointer file `a.sha1` holding the single byte `x` | an error saying the pointer is invalid | high, not executed | Sync.InvalidPointerReportsSuccess | Sync.CorrectedRejectsInvalidPointer |
| cmd/s3bin/s3bin.go:212-214 | `errors.Wrapf(err, …)` with `err == nil` (json.Unmarshal succeeded) returns nil, so an unsupported version counts as success | envelope whose header is `{"version":2}` | an error naming the unsupported version | high, not executed | Sync.UnsupportedVersionReportsSuccess | Sync.CorrectedRejectsOtherVersion |
| cmd/s3bin/s3bin.go:251-252 | the callback runs GetDir on a sub-directory and then returns nil, so `filepath.Walk` descends into it again; a file at depth d is handed to Get 2^d times (proved for d = 1; when the stored envelope's data hashes to the pointer's digest, as one written by Put does, the later calls find the restored file up to date) | tree `r/d/a.sha1`, GetDir("r") | each pointer handed to Get once, for example with a callback that ignores directories and leaves the descent to the walk | high, not executed | Batch.NestedPointerVisitedTwice | Batch.WalkOnceVisitsEachPointerOnce |
