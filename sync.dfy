/**
 The sync engine as pure functions of the world it acts on: the local files
 and the bucket. `PutSpec` and `GetSpec` say, step for step, what `Put` and `Get`
 return and what the world looks like afterwards; the classes in module
 S3BinImpl are proved to do exactly this, and the lemmas here state what the
 program promises.

 The collaborators are reduced to values: the file system to a map from path to
 contents and mode, with the sets of paths whose reading, writing or chmod
 fails; the bucket to a map from key to blob, a switch for whether it can be
 reached, and the log of the requests sent to it; SHA-1 to a function `sha1`
 that yields 40 lower-case hex digits.
 */
module Sync {
  import opened Text
  import opened Failures
  import opened StoreKeys
  import opened Envelope

  datatype File = File(data: Bytes, mode: nat)

  datatype Disk = Disk(
    files: map<string, File>,
    readDenied: set<string>,    // opening or reading fails with something other than "not exist"
    writeDenied: set<string>,   // creating or truncating fails
    chmodDenied: set<string>)   // changing the mode fails

  datatype Request = PutRequest(key: string) | GetRequest(key: string)

  datatype Remote = Remote(objects: map<string, Blob>, online: bool, log: seq<Request>)

  datatype World = World(disk: Disk, remote: Remote)

  /** A result together with the world an operation leaves behind. */
  datatype Run<+T> = Run(result: T, world: World)

  /** Mode of a file os.Create makes (0666, the umask aside). */
  const CreateMode: nat := 0x1b6
  /** Mode of a pointer file ioutil.WriteFile makes (0644, the umask aside). */
  const PointerMode: nat := 0x1a4

  ghost predicate ValidHasher(sha1: Bytes -> string) {
    forall b :: IsDigest(sha1(b))
  }

  /** ioutil.ReadFile / os.Open followed by reading to the end. */
  function ReadLocal(d: Disk, path: string): (r: Result<Bytes>)
    ensures r.Ok? <==> path !in d.readDenied && path in d.files
    ensures r.Ok? ==> r.value == d.files[path].data
    ensures r.Err? ==> r.error == ReadFailed(path, if path in d.readDenied then Denied else NotExist)
  {
    if path in d.readDenied then Err(ReadFailed(path, Denied))
    else if path !in d.files then Err(ReadFailed(path, NotExist))
    else Ok(d.files[path].data)
  }

  /** calcSha1: the digest of a local file's contents, or why it cannot be read. */
  function CalcSha1(sha1: Bytes -> string, d: Disk, path: string): (r: Result<string>)
    ensures r.Ok? <==> ReadLocal(d, path).Ok?
    ensures r.Ok? ==> r.value == sha1(d.files[path].data)
    ensures r.Err? ==> r.error == ReadLocal(d, path).error
  {
    match ReadLocal(d, path)
    case Ok(data) => Ok(sha1(data))
    case Err(e) => Err(e)
  }

  /** The path of the pointer file that Put writes beside `path`. */
  function PointerPath(path: string): (p: string)
    ensures TrimSuffix(p, PointerSuffix) == path && p != path
  {
    path + PointerSuffix
  }

  /** ioutil.WriteFile of a new content: an existing file keeps its mode. */
  function WriteLocal(d: Disk, path: string, data: Bytes, perm: nat): (d': Disk)
    ensures d'.files.Keys == d.files.Keys + {path}
    ensures d'.files[path].data == data
  {
    d.(files := d.files[path := File(data, if path in d.files then d.files[path].mode else perm)])
  }

  // ---------------------------------------------------------------------------
  // Put

  /** s3Bin.Put: hash the file, upload the envelope under the hash's key, then,
      and only then, write the hash into the pointer file. */
  function PutSpec(sha1: Bytes -> string, path: string, w: World): (r: Run<Option<Error>>)
    requires ValidHasher(sha1)
  {
    match CalcSha1(sha1, w.disk, path)
    case Err(e) => Run(Some(e), w)
    case Ok(hash) =>
      var f := w.disk.files[path];
      var key := StoreKey(hash);
      var sent := w.remote.(log := w.remote.log + [PutRequest(key)]);
      if !w.remote.online then Run(Some(StoreFailed(key)), World(w.disk, sent))
      else
        var stored := sent.(objects := sent.objects[key := Pack(f.data, f.mode)]);
        var hashFile := PointerPath(path);
        if hashFile in w.disk.writeDenied then Run(Some(WriteFailed(hashFile)), World(w.disk, stored))
        else Run(None, World(WriteLocal(w.disk, hashFile, BytesOf(hash), PointerMode), stored))
  }

  /** When Put returns an error, and which: it succeeds exactly when the file can
      be read, the bucket can be reached and the pointer file can be written; a
      read error is returned as it is, before anything is sent. */
  lemma PutFailsExactly(sha1: Bytes -> string, path: string, w: World)
    requires ValidHasher(sha1)
    ensures var r := PutSpec(sha1, path, w);
            && (r.result.None? <==>
                  ReadLocal(w.disk, path).Ok? && w.remote.online && PointerPath(path) !in w.disk.writeDenied)
            && (ReadLocal(w.disk, path).Err? ==> r == Run(Some(ReadLocal(w.disk, path).error), w))
            && (ReadLocal(w.disk, path).Ok? && !w.remote.online ==>
                  r.result == Some(StoreFailed(StoreKey(sha1(w.disk.files[path].data)))))
            && (ReadLocal(w.disk, path).Ok? && w.remote.online && PointerPath(path) in w.disk.writeDenied ==>
                  r.result == Some(WriteFailed(PointerPath(path))))
  {
  }

  /** A successful Put has stored the packed file under the key of its digest and
      written that digest, and nothing else, beside it; the file itself is untouched. */
  lemma PutStoresThenPoints(sha1: Bytes -> string, path: string, w: World)
    requires ValidHasher(sha1)
    requires PutSpec(sha1, path, w).result.None?
    ensures path in w.disk.files
    ensures var f := w.disk.files[path];
            var w' := PutSpec(sha1, path, w).world;
            && w'.remote.objects == w.remote.objects[StoreKey(sha1(f.data)) := Pack(f.data, f.mode)]
            && w'.remote.log == w.remote.log + [PutRequest(StoreKey(sha1(f.data)))]
            && w'.disk.files.Keys == w.disk.files.Keys + {PointerPath(path)}
            && w'.disk.files[PointerPath(path)].data == BytesOf(sha1(f.data))
            && (forall p :: p in w.disk.files && p != PointerPath(path) ==> w'.disk.files[p] == w.disk.files[p])
  {
  }

  /** A Put whose upload fails writes no pointer file: the local files are as before. */
  lemma PutFailedUploadWritesNoPointer(sha1: Bytes -> string, path: string, w: World)
    requires ValidHasher(sha1)
    requires PutSpec(sha1, path, w).result.Some?
    requires PutSpec(sha1, path, w).result.value.StoreFailed?
    ensures PutSpec(sha1, path, w).world.disk == w.disk
    ensures PutSpec(sha1, path, w).world.remote.objects == w.remote.objects
  {
  }

  /** Put touches the local files only by writing the pointer file, and only after
      an upload has been sent and accepted. */
  lemma PutWritesOnlyAfterUpload(sha1: Bytes -> string, path: string, w: World)
    requires ValidHasher(sha1)
    ensures var r := PutSpec(sha1, path, w);
            r.world.disk != w.disk ==>
              && r.result.None?
              && w.remote.online
              && |r.world.remote.log| == |w.remote.log| + 1
              && r.world.remote.log[|w.remote.log|].PutRequest?
  {
  }

  /** Put is safe to repeat: a second Put of an unchanged file stores the same blob
      under the same key and rewrites the same pointer; only the request log grows. */
  lemma PutIdempotent(sha1: Bytes -> string, path: string, w: World)
    requires ValidHasher(sha1)
    requires PutSpec(sha1, path, w).result.None?
    ensures var w1 := PutSpec(sha1, path, w).world;
            var w2 := PutSpec(sha1, path, w1).world;
            && PutSpec(sha1, path, w1).result.None?
            && w2.disk == w1.disk
            && w2.remote.objects == w1.remote.objects
            && w2.remote.log == w1.remote.log + [w1.remote.log[|w1.remote.log| - 1]]
  {
    var w1 := PutSpec(sha1, path, w).world;
    assert PointerPath(path) != path;
    assert w1.disk.files[path] == w.disk.files[path];
    var w2 := PutSpec(sha1, path, w1).world;
    assert w2.disk.files == w1.disk.files;
  }

  // ---------------------------------------------------------------------------
  // Get

  /** What Get ends with. Three of them make Get return nil: `Fetched`, `UpToDate`,
      and the two paths where the program wraps a nil error, which
      github.com/pkg/errors turns into nil: `InvalidPointer` and `UnsupportedVersion`. */
  datatype GetOutcome =
    | Fetched                           // downloaded, written and chmod-ed
    | UpToDate                          // the target already has the pointer's digest
    | InvalidPointer                    // the pointer is not 40 characters: stop, nil
    | UnsupportedVersion(version: int)  // the envelope has another version: stop, nil
    | Failed(error: Error)

  /** True when Get returns nil for this outcome. */
  predicate ReturnsNil(o: GetOutcome) {
    !o.Failed?
  }

  /** Writes the payload into the target (os.Create, io.Copy) and restores its mode
      (Chmod). A failed Chmod leaves the bytes written under the creation mode. */
  function Restore(target: string, data: Bytes, mode: nat, w: World): (r: Run<GetOutcome>)
    ensures r.world.remote == w.remote
  {
    if target in w.disk.writeDenied then Run(Failed(CreateFailed(target)), w)
    else
      var created := w.disk.(files := w.disk.files[target := File(data,
        if target in w.disk.files then w.disk.files[target].mode else CreateMode)]);
      if target in w.disk.chmodDenied then Run(Failed(ChmodFailed(target)), World(created, w.remote))
      else Run(Fetched, World(w.disk.(files := w.disk.files[target := File(data, mode)]), w.remote))
  }

  /** Downloads the envelope at the digest's key, checks it and restores the target. */
  function Fetch(target: string, digest: string, w: World): (r: Run<GetOutcome>)
    requires |digest| >= 20
    ensures r.world.remote == w.remote.(log := w.remote.log + [GetRequest(StoreKey(digest))])
  {
    var key := StoreKey(digest);
    var sent := World(w.disk, w.remote.(log := w.remote.log + [GetRequest(key)]));
    if !w.remote.online || key !in w.remote.objects then Run(Failed(StoreFailed(key)), sent)
    else match Unpack(w.remote.objects[key])
      case Rejected(e) => Run(Failed(e), sent)
      case Unsupported(v) => Run(UnsupportedVersion(v), sent)
      case Payload(data, mode) => Restore(target, data, mode, sent)
  }

  /** The digest a pointer file's bytes name, after TrimSpace and ToLower. */
  function PointerDigest(content: Bytes): (h: string)
    ensures |h| <= |content|
  {
    NormalizePointer(Chars(content))
  }

  /** s3Bin.Get on the pointer file `sha1File`. */
  function GetSpec(sha1: Bytes -> string, sha1File: string, w: World): (r: Run<GetOutcome>)
  {
    var target := TrimSuffix(sha1File, PointerSuffix);
    if target == sha1File then Run(Failed(NoPointerSuffix(sha1File)), w)
    else match ReadLocal(w.disk, sha1File)
      case Err(e) => Run(Failed(e), w)
      case Ok(content) =>
        var digest := PointerDigest(content);
        if |digest| != 40 then Run(InvalidPointer, w)
        else match CalcSha1(sha1, w.disk, target)
          case Ok(existing) =>
            if existing == digest then Run(UpToDate, w) else Fetch(target, digest, w)
          case Err(e) =>
            if e.cause == NotExist then Fetch(target, digest, w) else Run(Failed(e), w)
  }

  /** Get on a path without the ".sha1" suffix fails at once and leaves the world,
      the request log included, as it was; only such paths fail this way. */
  lemma GetRequiresSuffix(sha1: Bytes -> string, sha1File: string, w: World)
    ensures !HasSuffix(sha1File, PointerSuffix) ==>
      GetSpec(sha1, sha1File, w) == Run(Failed(NoPointerSuffix(sha1File)), w)
    ensures GetSpec(sha1, sha1File, w).result == Failed(NoPointerSuffix(sha1File)) ==>
      !HasSuffix(sha1File, PointerSuffix)
  {
    if HasSuffix(sha1File, PointerSuffix) {
      assert |TrimSuffix(sha1File, PointerSuffix)| < |sha1File|;
    }
  }

  /** A pointer whose normalised text is not 40 characters long stops Get with a nil
      error before the target is hashed, the bucket contacted or anything written. */
  lemma GetInvalidPointerStops(sha1: Bytes -> string, sha1File: string, w: World)
    requires HasSuffix(sha1File, PointerSuffix)
    requires ReadLocal(w.disk, sha1File).Ok?
    requires |PointerDigest(w.disk.files[sha1File].data)| != 40
    ensures GetSpec(sha1, sha1File, w) == Run(InvalidPointer, w)
    ensures ReturnsNil(GetSpec(sha1, sha1File, w).result)
  {
    assert |TrimSuffix(sha1File, PointerSuffix)| < |sha1File|;
  }

  /** When the target exists and hashes to the pointer's digest, Get succeeds
      without contacting the bucket or writing anything. */
  lemma GetUpToDateStaysLocal(sha1: Bytes -> string, sha1File: string, w: World)
    requires ValidHasher(sha1)
    requires HasSuffix(sha1File, PointerSuffix)
    requires ReadLocal(w.disk, sha1File).Ok?
    requires CalcSha1(sha1, w.disk, TrimSuffix(sha1File, PointerSuffix)).Ok?
    requires CalcSha1(sha1, w.disk, TrimSuffix(sha1File, PointerSuffix)).value
             == PointerDigest(w.disk.files[sha1File].data)
    ensures GetSpec(sha1, sha1File, w) == Run(UpToDate, w)
  {
    assert |TrimSuffix(sha1File, PointerSuffix)| < |sha1File|;
  }

  /** The converse: a valid pointer whose target is missing or differs from its
      digest always makes Get download, whatever the bucket then answers. With
      GetFetchesOnlyWhenStale this is the "iff" of the program's documentation. */
  lemma GetFetchesWhenStale(sha1: Bytes -> string, sha1File: string, w: World)
    requires HasSuffix(sha1File, PointerSuffix)
    requires ReadLocal(w.disk, sha1File).Ok?
    requires |PointerDigest(w.disk.files[sha1File].data)| == 40
    requires TrimSuffix(sha1File, PointerSuffix) !in w.disk.readDenied
    requires var target := TrimSuffix(sha1File, PointerSuffix);
             target in w.disk.files ==> sha1(w.disk.files[target].data) != PointerDigest(w.disk.files[sha1File].data)
    ensures GetSpec(sha1, sha1File, w)
      == Fetch(TrimSuffix(sha1File, PointerSuffix), PointerDigest(w.disk.files[sha1File].data), w)
    ensures GetSpec(sha1, sha1File, w).world.remote.log
      == w.remote.log + [GetRequest(StoreKey(PointerDigest(w.disk.files[sha1File].data)))]
  {
    assert |TrimSuffix(sha1File, PointerSuffix)| < |sha1File|;
  }

  /** The only ways Get returns nil, and what each one means: the pointer was
      read; InvalidPointer exactly when its text is not 40 characters; UpToDate
      only when the target hashes to the digest; Fetched and UnsupportedVersion
      only after the bucket returned an envelope that unpacked to a payload, or
      to another version; and Fetched leaves exactly the payload in the target.
      Every other path ends in Failed. */
  lemma GetNilCauses(sha1: Bytes -> string, sha1File: string, w: World)
    ensures var r := GetSpec(sha1, sha1File, w);
            ReturnsNil(r.result) ==>
              && HasSuffix(sha1File, PointerSuffix)
              && ReadLocal(w.disk, sha1File).Ok?
              && var digest := PointerDigest(ReadLocal(w.disk, sha1File).value);
                 var target := TrimSuffix(sha1File, PointerSuffix);
                 && (r.result == InvalidPointer <==> |digest| != 40)
                 && (r.result == UpToDate ==>
                       target in w.disk.files && sha1(w.disk.files[target].data) == digest)
                 && (r.result.Fetched? || r.result.UnsupportedVersion? ==>
                       |digest| == 40 && FetchNil(target, digest, w, r))
  {
    var r := GetSpec(sha1, sha1File, w);
    var target := TrimSuffix(sha1File, PointerSuffix);
    if target != sha1File && ReadLocal(w.disk, sha1File).Ok? {
      assert HasSuffix(sha1File, PointerSuffix);
      var digest := PointerDigest(ReadLocal(w.disk, sha1File).value);
      if |digest| == 40 {
        var existing := CalcSha1(sha1, w.disk, target);
        if existing.Ok? && existing.value == digest {
          assert r == Run(UpToDate, w);
        } else if existing.Ok? || existing.error.cause == NotExist {
          assert r == Fetch(target, digest, w);
          FetchNilCauses(target, digest, w);
        } else {
          assert r.result.Failed?;
        }
      } else {
        assert r == Run(InvalidPointer, w);
      }
    }
  }

  /** A target that cannot be hashed for a reason other than its absence makes Get
      return that error without fetching. */
  lemma GetUnreadableTargetFails(sha1: Bytes -> string, sha1File: string, w: World)
    requires HasSuffix(sha1File, PointerSuffix)
    requires ReadLocal(w.disk, sha1File).Ok?
    requires |PointerDigest(w.disk.files[sha1File].data)| == 40
    requires TrimSuffix(sha1File, PointerSuffix) in w.disk.readDenied
    ensures GetSpec(sha1, sha1File, w)
      == Run(Failed(ReadFailed(TrimSuffix(sha1File, PointerSuffix), Denied)), w)
  {
    assert |TrimSuffix(sha1File, PointerSuffix)| < |sha1File|;
  }

  /** Get contacts the bucket at most once, only with a GET for the key of the
      pointer's digest, and only when the target is missing or differs from it. */
  lemma GetFetchesOnlyWhenStale(sha1: Bytes -> string, sha1File: string, w: World)
    ensures var r := GetSpec(sha1, sha1File, w);
            && r.world.remote.objects == w.remote.objects
            && r.world.remote.online == w.remote.online
            && (r.world.remote.log == w.remote.log
                || (&& HasSuffix(sha1File, PointerSuffix)
                    && ReadLocal(w.disk, sha1File).Ok?
                    && var digest := PointerDigest(w.disk.files[sha1File].data);
                       && |digest| == 40
                       && r.world.remote.log == w.remote.log + [GetRequest(StoreKey(digest))]
                       && var target := TrimSuffix(sha1File, PointerSuffix);
                          target !in w.disk.readDenied
                          && (target in w.disk.files ==> sha1(w.disk.files[target].data) != digest)))
  {
    var target := TrimSuffix(sha1File, PointerSuffix);
    if target != sha1File && ReadLocal(w.disk, sha1File).Ok? {
      var digest := PointerDigest(w.disk.files[sha1File].data);
      if |digest| == 40 {
        var existing := CalcSha1(sha1, w.disk, target);
        if (existing.Ok? && existing.value != digest) || (existing.Err? && existing.error.cause == NotExist) {
          assert GetSpec(sha1, sha1File, w) == Fetch(target, digest, w);
        } else {
          assert GetSpec(sha1, sha1File, w).world == w;
        }
      }
    }
  }

  /** The two disks agree on everything except, possibly, the file at `target`. */
  ghost predicate SameExcept(d: Disk, d': Disk, target: string) {
    && d'.readDenied == d.readDenied
    && d'.writeDenied == d.writeDenied
    && d'.chmodDenied == d.chmodDenied
    && (forall p :: p != target ==> (p in d'.files <==> p in d.files))
    && (forall p :: p != target && p in d.files ==> d'.files[p] == d.files[p])
  }

  lemma RestoreWritesTarget(target: string, data: Bytes, mode: nat, w: World)
    ensures var r := Restore(target, data, mode, w);
            && SameExcept(w.disk, r.world.disk, target)
            && (r.world.disk != w.disk ==> target in r.world.disk.files && r.world.disk.files[target].data == data)
  {
  }

  lemma FetchWritesOnlyPayload(target: string, digest: string, w: World)
    requires |digest| >= 20
    ensures var r := Fetch(target, digest, w);
            && SameExcept(w.disk, r.world.disk, target)
            && (r.world.disk != w.disk ==>
                  var key := StoreKey(digest);
                  && key in w.remote.objects
                  && Unpack(w.remote.objects[key]).Payload?
                  && target in r.world.disk.files
                  && r.world.disk.files[target].data == Unpack(w.remote.objects[key]).data)
  {
    var key := StoreKey(digest);
    var sent := World(w.disk, w.remote.(log := w.remote.log + [GetRequest(key)]));
    if w.remote.online && key in w.remote.objects {
      var u := Unpack(w.remote.objects[key]);
      if u.Payload? {
        RestoreWritesTarget(target, u.data, u.mode, sent);
      }
    }
  }

  /** Restore's three results: os.Create fails with nothing changed; Chmod fails
      with the payload already written under the created (or previous) mode; or
      the target holds the payload under the archived mode. */
  lemma RestoreResults(target: string, data: Bytes, mode: nat, w: World)
    ensures var r := Restore(target, data, mode, w);
            && (r.result == Fetched || r.result == Failed(CreateFailed(target)) || r.result == Failed(ChmodFailed(target)))
            && (r.result == Failed(CreateFailed(target)) <==> target in w.disk.writeDenied)
            && (r.result == Failed(CreateFailed(target)) ==> r.world == w)
            && (r.result == Failed(ChmodFailed(target)) ==>
                  r.world.disk.files == w.disk.files[target := File(data,
                    if target in w.disk.files then w.disk.files[target].mode else CreateMode)])
            && (r.result == Fetched ==> r.world.disk.files == w.disk.files[target := File(data, mode)])
  {
  }

  /** An unreachable bucket or a missing key makes the download fail with the
      store error, the local files untouched. */
  lemma FetchUnavailable(target: string, digest: string, w: World)
    requires |digest| >= 20
    requires !w.remote.online || StoreKey(digest) !in w.remote.objects
    ensures Fetch(target, digest, w).result == Failed(StoreFailed(StoreKey(digest)))
    ensures Fetch(target, digest, w).world.disk == w.disk
  {
  }

  /** What a download that returns nil has seen: a reachable bucket holding the
      key, an envelope that unpacked to a payload (Fetched, which leaves exactly
      that payload in the target) or to another version (UnsupportedVersion). */
  ghost predicate FetchNil(target: string, digest: string, w: World, r: Run<GetOutcome>)
    requires |digest| >= 20
  {
    var key := StoreKey(digest);
    && w.remote.online && key in w.remote.objects
    && (r.result.Fetched? ==>
          && Unpack(w.remote.objects[key]).Payload?
          && r.world.disk.files == w.disk.files[target := File(Unpack(w.remote.objects[key]).data,
                                                               Unpack(w.remote.objects[key]).mode)])
    && (r.result.UnsupportedVersion? ==> Unpack(w.remote.objects[key]) == Unsupported(r.result.version))
  }

  lemma FetchNilCauses(target: string, digest: string, w: World)
    requires |digest| >= 20
    ensures var r := Fetch(target, digest, w);
            && r.result != InvalidPointer && r.result != UpToDate
            && (r.result.Fetched? || r.result.UnsupportedVersion? ==> FetchNil(target, digest, w, r))
  {
    var key := StoreKey(digest);
    var sent := World(w.disk, w.remote.(log := w.remote.log + [GetRequest(key)]));
    if w.remote.online && key in w.remote.objects {
      var u := Unpack(w.remote.objects[key]);
      if u.Payload? {
        RestoreResults(target, u.data, u.mode, sent);
      }
    }
  }

  /** Get writes the target only after every envelope check has passed: unless the
      downloaded envelope unpacks to a payload, the local files are untouched; and
      the only file Get ever writes is the target. */
  lemma GetWritesOnlyCheckedPayload(sha1: Bytes -> string, sha1File: string, w: World)
    ensures var r := GetSpec(sha1, sha1File, w);
            var target := TrimSuffix(sha1File, PointerSuffix);
            && SameExcept(w.disk, r.world.disk, target)
            && (r.world.disk != w.disk ==>
                  && ReadLocal(w.disk, sha1File).Ok?
                  && var key := StoreKey(PointerDigest(w.disk.files[sha1File].data));
                     && key in w.remote.objects
                     && Unpack(w.remote.objects[key]).Payload?
                     && target in r.world.disk.files
                     && r.world.disk.files[target].data == Unpack(w.remote.objects[key]).data)
  {
    var r := GetSpec(sha1, sha1File, w);
    var target := TrimSuffix(sha1File, PointerSuffix);
    if target != sha1File && ReadLocal(w.disk, sha1File).Ok? {
      var digest := PointerDigest(w.disk.files[sha1File].data);
      if |digest| == 40 {
        var existing := CalcSha1(sha1, w.disk, target);
        if (existing.Ok? && existing.value != digest) || (existing.Err? && existing.error.cause == NotExist) {
          assert r == Fetch(target, digest, w);
          FetchWritesOnlyPayload(target, digest, w);
        } else {
          assert r.world == w;
        }
      } else {
        assert r.world == w;
      }
    } else {
      assert r.world == w;
    }
  }

  // ---------------------------------------------------------------------------
  // Put, then Get

  /** After a successful Put, Get on the new pointer with the file unchanged finds
      it up to date and never contacts the bucket. */
  lemma PutThenGetIsUpToDate(sha1: Bytes -> string, path: string, w: World)
    requires ValidHasher(sha1)
    requires PutSpec(sha1, path, w).result.None?
    requires PointerPath(path) !in w.disk.readDenied
    ensures var w1 := PutSpec(sha1, path, w).world;
            GetSpec(sha1, PointerPath(path), w1) == Run(UpToDate, w1)
  {
    var w1 := PutSpec(sha1, path, w).world;
    var hash := sha1(w.disk.files[path].data);
    assert IsDigest(hash);
    CharsOfBytesOf(hash);
    NormalizeDigest(hash);
    assert PointerDigest(w1.disk.files[PointerPath(path)].data) == hash;
    assert w1.disk.files[path] == w.disk.files[path];
  }

  /** Get restores a file from the bucket: when the bucket holds the envelope Put
      made of `f` under the key of `f`'s digest, the pointer file holds that digest, and
      the target is missing or differs, Get leaves the target with exactly `f`'s
      bytes and mode and changes no other file. */
  lemma GetRestoresPutFile(sha1: Bytes -> string, path: string, f: File, w: World)
    requires ValidHasher(sha1)
    requires w.remote.online
    requires StoreKey(sha1(f.data)) in w.remote.objects
    requires w.remote.objects[StoreKey(sha1(f.data))] == Pack(f.data, f.mode)
    requires ReadLocal(w.disk, PointerPath(path)) == Ok(BytesOf(sha1(f.data)))
    requires path !in w.disk.readDenied && path !in w.disk.writeDenied && path !in w.disk.chmodDenied
    requires path in w.disk.files ==> sha1(w.disk.files[path].data) != sha1(f.data)
    ensures var r := GetSpec(sha1, PointerPath(path), w);
            && r.result == Fetched
            && r.world.disk.files == w.disk.files[path := f]
            && r.world.remote.log == w.remote.log + [GetRequest(StoreKey(sha1(f.data)))]
  {
    var hash := sha1(f.data);
    assert IsDigest(hash);
    CharsOfBytesOf(hash);
    NormalizeDigest(hash);
    assert PointerDigest(BytesOf(hash)) == hash;
    UnpackPack(f.data, f.mode);
  }

  /** The round trip of Put and Get: Put a file, delete it, Get its pointer; the
      file is back with the same bytes and mode. */
  lemma PutDeleteGetRestores(sha1: Bytes -> string, path: string, w: World)
    requires ValidHasher(sha1)
    requires PutSpec(sha1, path, w).result.None?
    requires PointerPath(path) !in w.disk.readDenied
    requires path !in w.disk.writeDenied && path !in w.disk.chmodDenied
    ensures var w1 := PutSpec(sha1, path, w).world;
            var deleted := w1.(disk := w1.disk.(files := w1.disk.files - {path}));
            var r := GetSpec(sha1, PointerPath(path), deleted);
            && r.result == Fetched
            && r.world.disk.files == w1.disk.files
            && r.world.disk.files[path] == w.disk.files[path]
  {
    var w1 := PutSpec(sha1, path, w).world;
    var f := w.disk.files[path];
    var deleted := w1.(disk := w1.disk.(files := w1.disk.files - {path}));
    assert PointerPath(path) != path;
    assert w1.disk.files[path] == f;
    GetRestoresPutFile(sha1, path, f, deleted);
    assert deleted.disk.files[path := f] == w1.disk.files;
  }

  // ---------------------------------------------------------------------------
  // The nil-error paths, as written and as intended

  /** As written: an invalid pointer makes Get report success while the target
      is still missing. */
  lemma InvalidPointerReportsSuccess(sha1: Bytes -> string)
    ensures var w := World(Disk(map["a.sha1" := File([120], PointerMode)], {}, {}, {}), Remote(map[], true, []));
            var r := GetSpec(sha1, "a.sha1", w);
            ReturnsNil(r.result) && "a" !in r.world.disk.files
  {
    var w := World(Disk(map["a.sha1" := File([120], PointerMode)], {}, {}, {}), Remote(map[], true, []));
    assert HasSuffix("a.sha1", PointerSuffix);
    assert TrimSuffix("a.sha1", PointerSuffix) == "a";
    GetInvalidPointerStops(sha1, "a.sha1", w);
  }

  /** As written: an envelope of version 2 makes Get report success while the
      target is still missing. */
  lemma UnsupportedVersionReportsSuccess(sha1: Bytes -> string)
    ensures var zeros := seq(40, _ => '0');
            var blob := Archive([Entry("header", HeaderEntryMode, EncodeHeader(2)), Entry("data", 0x1ed, [])]);
            var w := World(Disk(map["a.sha1" := File(BytesOf(zeros), PointerMode)], {}, {}, {}),
                           Remote(map[StoreKey(zeros) := blob], true, []));
            var r := GetSpec(sha1, "a.sha1", w);
            r.result == UnsupportedVersion(2) && ReturnsNil(r.result) && "a" !in r.world.disk.files
  {
    var zeros: string := seq(40, _ => '0');
    assert IsDigest(zeros);
    CharsOfBytesOf(zeros);
    NormalizeDigest(zeros);
    assert PointerDigest(BytesOf(zeros)) == zeros;
    assert TrimSuffix("a.sha1", PointerSuffix) == "a";
    OtherVersionStopsBeforeData(2, [Entry("data", 0x1ed, [])]);
  }

  /** The evidently intended outcome: both nil-error paths become errors. */
  function CorrectedOutcome(sha1File: string, o: GetOutcome): (c: GetOutcome)
    ensures ReturnsNil(c) <==> o == Fetched || o == UpToDate
  {
    match o
    case InvalidPointer => Failed(PointerMalformed(sha1File))
    case UnsupportedVersion(v) => Failed(VersionUnsupported(v))
    case _ => o
  }

  /** Get with the two nil-error paths corrected; it changes the world as Get does. */
  function CorrectedGetSpec(sha1: Bytes -> string, sha1File: string, w: World): (r: Run<GetOutcome>)
    ensures r.world == GetSpec(sha1, sha1File, w).world
  {
    var r := GetSpec(sha1, sha1File, w);
    Run(CorrectedOutcome(sha1File, r.result), r.world)
  }

  /** A download that ends in Fetched has left the target on disk. */
  lemma FetchedLeavesTarget(target: string, digest: string, w: World)
    requires |digest| >= 20
    ensures Fetch(target, digest, w).result == Fetched ==> target in Fetch(target, digest, w).world.disk.files
  {
    var key := StoreKey(digest);
    var sent := World(w.disk, w.remote.(log := w.remote.log + [GetRequest(key)]));
    if w.remote.online && key in w.remote.objects {
      var u := Unpack(w.remote.objects[key]);
      if u.Payload? {
        assert Fetch(target, digest, w) == Restore(target, u.data, u.mode, sent);
      }
    }
  }

  /** Get's two outcomes that mean "the file is there", Fetched and UpToDate,
      are reached only with the target present on disk afterwards. */
  lemma GetSuccessLeavesTarget(sha1: Bytes -> string, sha1File: string, w: World)
    ensures var r := GetSpec(sha1, sha1File, w);
            r.result == Fetched || r.result == UpToDate ==> TrimSuffix(sha1File, PointerSuffix) in r.world.disk.files
  {
    var target := TrimSuffix(sha1File, PointerSuffix);
    if target != sha1File && ReadLocal(w.disk, sha1File).Ok? {
      var digest := PointerDigest(w.disk.files[sha1File].data);
      if |digest| == 40 {
        var existing := CalcSha1(sha1, w.disk, target);
        if existing.Ok? && existing.value == digest {
          assert target in w.disk.files;
        } else if existing.Ok? || existing.error.cause == NotExist {
          assert GetSpec(sha1, sha1File, w) == Fetch(target, digest, w);
          FetchedLeavesTarget(target, digest, w);
        }
      }
    }
  }

  /** Corrected Get reports success only when the target now exists: either it was
      already up to date or it was just written. */
  lemma CorrectedSuccessMeansTargetPresent(sha1: Bytes -> string, sha1File: string, w: World)
    ensures var r := CorrectedGetSpec(sha1, sha1File, w);
            ReturnsNil(r.result) ==> TrimSuffix(sha1File, PointerSuffix) in r.world.disk.files
  {
    var g := GetSpec(sha1, sha1File, w);
    assert CorrectedGetSpec(sha1, sha1File, w) == Run(CorrectedOutcome(sha1File, g.result), g.world);
    GetSuccessLeavesTarget(sha1, sha1File, w);
  }

  /** Corrected Get rejects an invalid pointer with an error. */
  lemma CorrectedRejectsInvalidPointer(sha1: Bytes -> string, sha1File: string, w: World)
    requires HasSuffix(sha1File, PointerSuffix)
    requires ReadLocal(w.disk, sha1File).Ok?
    requires |PointerDigest(w.disk.files[sha1File].data)| != 40
    ensures CorrectedGetSpec(sha1, sha1File, w).result == Failed(PointerMalformed(sha1File))
  {
    GetInvalidPointerStops(sha1, sha1File, w);
  }

  /** Corrected Get rejects an envelope of another version with an error. */
  lemma CorrectedRejectsOtherVersion(sha1: Bytes -> string, sha1File: string, w: World)
    requires GetSpec(sha1, sha1File, w).result.UnsupportedVersion?
    ensures CorrectedGetSpec(sha1, sha1File, w).result
      == Failed(VersionUnsupported(GetSpec(sha1, sha1File, w).result.version))
    ensures GetSpec(sha1, sha1File, w).result.version != Version
  {
  }

  /** Get fails only with errors of its own steps, never with a walk error. */
  lemma GetNeverWalkFailed(sha1: Bytes -> string, sha1File: string, w: World)
    ensures var r := GetSpec(sha1, sha1File, w).result;
            r.Failed? ==> !r.error.WalkFailed?
  {
  }
}
