/**
 The s3Bin type and its collaborators as objects whose state the operations
 change step by step: the local file system, the bucket, and s3Bin with Put,
 Get and GetDir written as the program writes them, with their early returns.
 Each operation is proved to end exactly as the pure specification in module
 Sync (or Batch, for GetDir) says, so every lemma proved there holds of it.
 */
module S3BinImpl {
  import opened Text
  import opened Failures
  import opened StoreKeys
  import opened Envelope
  import opened Sync
  import opened Batch

  /** The local file system: contents and mode by path, and the paths where
      reading, creating or changing the mode fails. */
  class LocalFs {
    var files: map<string, File>
    const readDenied: set<string>
    const writeDenied: set<string>
    const chmodDenied: set<string>

    constructor (files: map<string, File>, readDenied: set<string>, writeDenied: set<string>, chmodDenied: set<string>)
      ensures State() == Disk(files, readDenied, writeDenied, chmodDenied)
    {
      this.files := files;
      this.readDenied := readDenied;
      this.writeDenied := writeDenied;
      this.chmodDenied := chmodDenied;
    }

    function State(): Disk
      reads this
    {
      Disk(files, readDenied, writeDenied, chmodDenied)
    }

    /** ioutil.ReadFile, or os.Open and reading to the end. */
    method ReadFile(path: string) returns (r: Result<Bytes>)
      ensures r == ReadLocal(State(), path)
    {
      if path in readDenied {
        r := Err(ReadFailed(path, Denied));
      } else if path !in files {
        r := Err(ReadFailed(path, NotExist));
      } else {
        r := Ok(files[path].data);
      }
    }

    /** os.Create: truncates an existing file, keeping its mode, or makes an empty one. */
    method Create(path: string) returns (err: Option<Error>)
      modifies this
      ensures err == if path in writeDenied then Some(CreateFailed(path)) else None
      ensures files == if err.Some? then old(files)
                       else old(files)[path := File([], if path in old(files) then old(files)[path].mode else CreateMode)]
    {
      if path in writeDenied {
        return Some(CreateFailed(path));
      }
      var mode := if path in files then files[path].mode else CreateMode;
      files := files[path := File([], mode)];
      err := None;
    }

    /** io.Copy into the open file `path`. */
    method Append(path: string, data: Bytes)
      requires path in files
      modifies this
      ensures files == old(files)[path := File(old(files)[path].data + data, old(files)[path].mode)]
    {
      var f := files[path];
      files := files[path := File(f.data + data, f.mode)];
    }

    /** File.Chmod on the open file `path`. */
    method Chmod(path: string, mode: nat) returns (err: Option<Error>)
      requires path in files
      modifies this
      ensures err == if path in chmodDenied then Some(ChmodFailed(path)) else None
      ensures files == if err.Some? then old(files) else old(files)[path := File(old(files)[path].data, mode)]
    {
      if path in chmodDenied {
        return Some(ChmodFailed(path));
      }
      files := files[path := File(files[path].data, mode)];
      err := None;
    }

    /** ioutil.WriteFile: replaces the contents; a new file gets the mode `perm`. */
    method WriteFile(path: string, data: Bytes, perm: nat) returns (err: Option<Error>)
      modifies this
      ensures err == if path in writeDenied then Some(WriteFailed(path)) else None
      ensures State() == if err.Some? then old(State()) else WriteLocal(old(State()), path, data, perm)
    {
      if path in writeDenied {
        return Some(WriteFailed(path));
      }
      var mode := if path in files then files[path].mode else perm;
      files := files[path := File(data, mode)];
      err := None;
    }
  }

  /** The S3 bucket: blobs by key, whether it can be reached, and the requests sent to it. */
  class Bucket {
    var objects: map<string, Blob>
    const online: bool
    var log: seq<Request>

    constructor (objects: map<string, Blob>, online: bool)
      ensures State() == Remote(objects, online, [])
    {
      this.objects := objects;
      this.online := online;
      this.log := [];
    }

    function State(): Remote
      reads this
    {
      Remote(objects, online, log)
    }

    /** PutObject: stores `blob` under `key` when the bucket can be reached. */
    method PutObject(key: string, blob: Blob) returns (err: Option<Error>)
      modifies this
      ensures log == old(log) + [PutRequest(key)]
      ensures err == if online then None else Some(StoreFailed(key))
      ensures objects == if online then old(objects)[key := blob] else old(objects)
    {
      log := log + [PutRequest(key)];
      if !online {
        return Some(StoreFailed(key));
      }
      objects := objects[key := blob];
      err := None;
    }

    /** GetObject: the blob under `key`; fails when the bucket cannot be reached
        or has no such key. */
    method GetObject(key: string) returns (r: Result<Blob>)
      modifies this
      ensures log == old(log) + [GetRequest(key)] && objects == old(objects)
      ensures r == if online && key in objects then Ok(objects[key]) else Err(StoreFailed(key))
    {
      log := log + [GetRequest(key)];
      if !online || key !in objects {
        return Err(StoreFailed(key));
      }
      r := Ok(objects[key]);
    }
  }

  /** s3Bin: the engine, bound to one bucket, one file system and one hash function. */
  class S3Bin {
    const fs: LocalFs
    const bucket: Bucket
    const sha1: Bytes -> string
    /** Every Get call made through this object, with its outcome. */
    ghost var calls: seq<Visit>

    constructor (fs: LocalFs, bucket: Bucket, sha1: Bytes -> string)
      ensures this.fs == fs && this.bucket == bucket && this.sha1 == sha1 && calls == []
    {
      this.fs := fs;
      this.bucket := bucket;
      this.sha1 := sha1;
      calls := [];
    }

    function Snapshot(): World
      reads fs, bucket
    {
      World(fs.State(), bucket.State())
    }

    /** calcSha1: hashes the contents of a local file. */
    method CalcSha1(path: string) returns (r: Result<string>)
      ensures r == Sync.CalcSha1(sha1, fs.State(), path)
    {
      var read := fs.ReadFile(path);
      if read.Err? {
        return Err(read.error);
      }
      r := Ok(sha1(read.value));
    }

    /** s3Bin.Put. */
    method Put(path: string) returns (err: Option<Error>)
      requires ValidHasher(sha1)
      modifies fs, bucket
      ensures Run(err, Snapshot()) == PutSpec(sha1, path, old(Snapshot()))
    {
      var hash := CalcSha1(path);
      if hash.Err? {
        return Some(hash.error);
      }
      // os.Open and Stat: the file's bytes, mode and size
      var f := fs.files[path];
      // the tar entries "header" and "data", written through gzip into a buffer
      var blob := Pack(f.data, f.mode);
      var key := StoreKey(hash.value);
      err := bucket.PutObject(key, blob);
      if err.Some? {
        return;
      }
      var hashFile := PointerPath(path);
      DigestIsByteText(hash.value);
      err := fs.WriteFile(hashFile, BytesOf(hash.value), PointerMode);
    }

    /** s3Bin.Get: the outcome tells which of Get's returns was taken. */
    method Get(sha1File: string) returns (outcome: GetOutcome)
      modifies this, fs, bucket
      ensures Run(outcome, Snapshot()) == GetSpec(sha1, sha1File, old(Snapshot()))
      ensures calls == old(calls) + [Visit(sha1File, outcome)]
    {
      outcome := Resolve(sha1File);
      calls := calls + [Visit(sha1File, outcome)];
    }

    method Resolve(sha1File: string) returns (outcome: GetOutcome)
      modifies fs, bucket
      ensures Run(outcome, Snapshot()) == GetSpec(sha1, sha1File, old(Snapshot()))
    {
      var target := TrimSuffix(sha1File, PointerSuffix);
      if target == sha1File {
        return Failed(NoPointerSuffix(sha1File));
      }
      var read := fs.ReadFile(sha1File);
      if read.Err? {
        return Failed(read.error);
      }
      var digest := PointerDigest(read.value);
      if |digest| != 40 {
        // errors.Wrapf(err, …) with err == nil: Get returns nil
        return InvalidPointer;
      }
      var existing := CalcSha1(target);
      if existing.Ok? {
        if existing.value == digest {
          return UpToDate;
        }
      } else if existing.error.cause != NotExist {
        return Failed(existing.error);
      }
      outcome := Download(target, digest);
    }

    /** The second half of Get: fetch, check the envelope, write, chmod. */
    method Download(target: string, digest: string) returns (outcome: GetOutcome)
      requires |digest| >= 20
      modifies fs, bucket
      ensures Run(outcome, Snapshot()) == Fetch(target, digest, old(Snapshot()))
    {
      var key := StoreKey(digest);
      var res := bucket.GetObject(key);
      if res.Err? {
        return Failed(res.error);
      }
      var payload := Unpack(res.value);
      match payload
      case Rejected(e) =>
        return Failed(e);
      case Unsupported(v) =>
        // errors.Wrapf(err, …) with err == nil: Get returns nil
        return UnsupportedVersion(v);
      case Payload(data, mode) =>
        var err := fs.Create(target);
        if err.Some? {
          return Failed(err.value);
        }
        fs.Append(target, data);
        assert fs.files[target].data == data;
        err := fs.Chmod(target, mode);
        if err.Some? {
          return Failed(err.value);
        }
        outcome := Fetched;
    }

    /** s3Bin.GetDir: filepath.Walk from `root` with GetDir's callback. */
    method GetDir(root: string, tree: Node) returns (err: Option<Error>)
      modifies this, fs, bucket
      ensures var r := GetDirSpec(sha1, root, tree, old(Snapshot()));
              err == r.err && Snapshot() == r.world && calls == old(calls) + r.visits
      decreases Size(tree), 0, 3
    {
      err := Walk(root, tree, root);
    }

    /** filepath.Walk's walk of one path: the callback, then, for a directory it
        did not stop at, its entries. */
    method Walk(path: string, n: Node, root: string) returns (err: Option<Error>)
      modifies this, fs, bucket
      ensures var r := Batch.Walk(sha1, path, n, root, old(Snapshot()));
              err == r.err && Snapshot() == r.world && calls == old(calls) + r.visits
      decreases Size(n), BelowRoot(path, root), 2
    {
      err := WalkFunc(path, n, root);
      if !n.Dir? || err.Some? {
        return;
      }
      err := WalkDir(path, n.entries, root);
    }

    /** The entries of the directory `dir` in turn, up to the first error. */
    method WalkDir(dir: string, es: seq<Node>, root: string) returns (err: Option<Error>)
      modifies this, fs, bucket
      ensures var r := WalkEntries(sha1, dir, es, root, old(Snapshot()));
              err == r.err && Snapshot() == r.world && calls == old(calls) + r.visits
      decreases SizeAll(es), 3, 0
    {
      ghost var w0 := Snapshot();
      ghost var calls0 := calls;
      var i := 0;
      while i < |es|
        invariant 0 <= i <= |es|
        invariant var done := WalkEntries(sha1, dir, es[..i], root, w0);
                  done.err.None? && Snapshot() == done.world && calls == calls0 + done.visits
      {
        ghost var done := WalkEntries(sha1, dir, es[..i], root, w0);
        ghost var r := Batch.Walk(sha1, Join(dir, es[i].name), es[i], root, done.world);
        EntriesStep(sha1, dir, es, i, root, w0);
        ghost var next := WalkRun(r.err, done.visits + r.visits, r.world);
        assert WalkEntries(sha1, dir, es[..i + 1], root, w0) == next;
        SizeOfEntry(es, i);
        var e := Walk(Join(dir, es[i].name), es[i], root);
        assert e == next.err && Snapshot() == next.world && calls == calls0 + next.visits;
        if e.Some? {
          EntriesStopAtError(sha1, dir, es, i + 1, root, w0);
          return e;
        }
        i := i + 1;
      }
      assert es[..i] == es;
      err := None;
    }

    /** GetDir's callback. */
    method WalkFunc(path: string, n: Node, root: string) returns (err: Option<Error>)
      modifies this, fs, bucket
      ensures var r := Callback(sha1, path, n, root, old(Snapshot()));
              err == r.err && Snapshot() == r.world && calls == old(calls) + r.visits
      decreases Size(n), BelowRoot(path, root), 1
    {
      if n.Broken? {
        return Some(WalkFailed(path));
      }
      if n.Dir? && path != root && n.name != "." && n.name != ".." {
        err := GetDir(path, n);
        return;
      }
      if Ext(path) != PointerSuffix {
        return None;
      }
      var outcome := Get(path);
      err := if outcome.Failed? then Some(outcome.error) else None;
    }
  }

  /** The walk of the first `i + 1` entries is the walk of the first `i`
      followed by the walk of entry `i`, when the first `i` ended without error. */
  lemma EntriesStep(sha1: Bytes -> string, dir: string, es: seq<Node>, i: nat, root: string, w: World)
    requires i < |es|
    requires WalkEntries(sha1, dir, es[..i], root, w).err.None?
    ensures var done := WalkEntries(sha1, dir, es[..i], root, w);
            var r := Batch.Walk(sha1, Join(dir, es[i].name), es[i], root, done.world);
            WalkEntries(sha1, dir, es[..i + 1], root, w) == WalkRun(r.err, done.visits + r.visits, r.world)
  {
    assert es[..i + 1][..i] == es[..i];
  }

  lemma SizeOfEntry(es: seq<Node>, i: nat)
    requires i < |es|
    ensures Size(es[i]) <= SizeAll(es)
    decreases |es|
  {
    if i < |es| - 1 {
      SizeOfEntry(es[..|es| - 1], i);
    }
  }

  /** Once the walk of the first `k` entries returned an error, the walk of all
      of them returns the same. */
  lemma {:induction false} EntriesStopAtError(sha1: Bytes -> string, dir: string, es: seq<Node>, k: nat,
                                              root: string, w: World)
    requires 0 < k <= |es|
    requires WalkEntries(sha1, dir, es[..k], root, w).err.Some?
    ensures WalkEntries(sha1, dir, es, root, w) == WalkEntries(sha1, dir, es[..k], root, w)
    decreases |es|
  {
    if k < |es| {
      var front := es[..|es| - 1];
      assert front[..k] == es[..k];
      EntriesStopAtError(sha1, dir, front, k, root, w);
    } else {
      assert es[..k] == es;
    }
  }
}
