/**
 The batch resolver, s3Bin.GetDir, as a pure function over an in-memory tree.

 GetDir hands a callback to filepath.Walk. The walk calls it on the root, and
 on a directory, then on each of its entries in turn, stopping at the first
 error the callback returns. The callback returns a walk error as it is; on a
 directory other than the walk's own root it starts a new GetDir there and
 returns what that returns (never filepath.SkipDir); on any other path it
 calls Get when the extension is ".sha1" and returns nil otherwise.

 Since the callback returns nil after the nested GetDir has finished, the outer
 walk descends into the same directory again: a pointer file that sits `k`
 directories below the root is handed to Get 2^k times.
 */
module Batch {
  import opened Text
  import opened Failures
  import opened Sync

  /** A directory tree as the walk sees it, entries in the order it visits them. */
  datatype Node =
    | Leaf(name: string)                    // a file or any other non-directory
    | Dir(name: string, entries: seq<Node>)
    | Broken(name: string)                  // lstat or reading the directory fails

  /** One call of Get made by the walk, with what that call ended with. */
  datatype Visit = Visit(path: string, outcome: GetOutcome)

  /** What a walk returns, the Get calls it made, and the world it leaves. */
  datatype WalkRun = WalkRun(err: Option<Error>, visits: seq<Visit>, world: World)

  function Size(n: Node): (s: nat)
    ensures s >= 1
  {
    match n
    case Dir(_, es) => 1 + SizeAll(es)
    case _ => 1
  }

  function SizeAll(es: seq<Node>): (s: nat)
  {
    if es == [] then 0 else SizeAll(es[..|es| - 1]) + Size(es[|es| - 1])
  }

  /** Termination measure for the nested GetDir: 0 when `path` is the root of
      the walk, 1 below it. A callback below the root may start a new walk
      rooted at its own path, whose measure is 0, on the same tree. */
  function BelowRoot(path: string, root: string): nat {
    if path == root then 0 else 1
  }

  /** The callback GetDir gives to filepath.Walk, applied to `path`. */
  function Callback(sha1: Bytes -> string, path: string, n: Node, root: string, w: World): (r: WalkRun)
    decreases Size(n), BelowRoot(path, root), 1
  {
    if n.Broken? then WalkRun(Some(WalkFailed(path)), [], w)
    else if n.Dir? && path != root && n.name != "." && n.name != ".." then
      Walk(sha1, path, n, path, w)
    else VisitFile(sha1, path, w)
  }

  /** The callback's last step: Get on a ".sha1" path, nothing on any other. */
  function VisitFile(sha1: Bytes -> string, path: string, w: World): (r: WalkRun)
    ensures |r.visits| <= 1
    ensures r.visits != [] <==> Ext(path) == PointerSuffix
    ensures Ext(path) != PointerSuffix ==> r == WalkRun(None, [], w)
  {
    if Ext(path) != PointerSuffix then WalkRun(None, [], w)
    else
      var g := GetSpec(sha1, path, w);
      WalkRun(if g.result.Failed? then Some(g.result.error) else None, [Visit(path, g.result)], g.world)
  }

  /** filepath.Walk's walk of `n` at `path`, for the walk rooted at `root`. */
  function Walk(sha1: Bytes -> string, path: string, n: Node, root: string, w: World): (r: WalkRun)
    decreases Size(n), BelowRoot(path, root), 2
  {
    var c := Callback(sha1, path, n, root, w);
    if !n.Dir? || c.err.Some? then c
    else
      var rest := WalkEntries(sha1, path, n.entries, root, c.world);
      WalkRun(rest.err, c.visits + rest.visits, rest.world)
  }

  /** The walk of the entries of the directory `dir`, in order, up to the first error. */
  function WalkEntries(sha1: Bytes -> string, dir: string, es: seq<Node>, root: string, w: World): (r: WalkRun)
    decreases SizeAll(es), 3, 0
  {
    if es == [] then WalkRun(None, [], w)
    else
      var done := WalkEntries(sha1, dir, es[..|es| - 1], root, w);
      if done.err.Some? then done
      else
        var last := es[|es| - 1];
        var r := Walk(sha1, Join(dir, last.name), last, root, done.world);
        WalkRun(r.err, done.visits + r.visits, r.world)
  }

  /** s3Bin.GetDir(root) on the tree `n` found at `root`. */
  function GetDirSpec(sha1: Bytes -> string, root: string, n: Node, w: World): (r: WalkRun)
  {
    Walk(sha1, root, n, root, w)
  }

  // ---------------------------------------------------------------------------
  // What GetDir promises

  /** Get is called only on paths with the ".sha1" extension, so it never fails
      for want of the suffix; every other path is skipped without error. */
  ghost predicate OnlyPointers(r: WalkRun) {
    forall i :: 0 <= i < |r.visits| ==>
      Ext(r.visits[i].path) == PointerSuffix && HasSuffix(r.visits[i].path, PointerSuffix)
  }

  /** The first error ends the walk and is the one returned: every Get call but
      the last returned nil; if the walk returns nil, every call did; and an error
      that is not the walk's own is the error of the last Get call. */
  ghost predicate StopsAtFirstError(r: WalkRun) {
    && (forall i :: 0 <= i < |r.visits| - 1 ==> ReturnsNil(r.visits[i].outcome))
    && (r.err.None? ==> forall i :: 0 <= i < |r.visits| ==> ReturnsNil(r.visits[i].outcome))
    && (r.err.Some? && !r.err.value.WalkFailed? ==>
          |r.visits| > 0 && r.visits[|r.visits| - 1].outcome == Failed(r.err.value))
    && (|r.visits| > 0 && !ReturnsNil(r.visits[|r.visits| - 1].outcome) ==>
          r.err == Some(r.visits[|r.visits| - 1].outcome.error))
  }

  ghost predicate Sound(r: WalkRun) {
    OnlyPointers(r) && StopsAtFirstError(r)
  }

  /** Two runs one after the other, the second started only when the first returned nil. */
  lemma SoundSequence(a: WalkRun, b: WalkRun)
    requires Sound(a) && Sound(b) && a.err.None?
    ensures Sound(WalkRun(b.err, a.visits + b.visits, b.world))
  {
    var c := WalkRun(b.err, a.visits + b.visits, b.world);
    forall i | 0 <= i < |c.visits|
      ensures c.visits[i] == if i < |a.visits| then a.visits[i] else b.visits[i - |a.visits|]
    {
    }
  }

  lemma {:induction false} CallbackSound(sha1: Bytes -> string, path: string, n: Node, root: string, w: World)
    ensures Sound(Callback(sha1, path, n, root, w))
    decreases Size(n), BelowRoot(path, root), 1
  {
    if n.Broken? {
    } else if n.Dir? && path != root && n.name != "." && n.name != ".." {
      WalkSound(sha1, path, n, path, w);
    } else {
      VisitFileSound(sha1, path, w);
    }
  }

  lemma VisitFileSound(sha1: Bytes -> string, path: string, w: World)
    ensures Sound(VisitFile(sha1, path, w))
  {
    ExtIsPointerSuffix(path);
  }

  lemma {:induction false} WalkSound(sha1: Bytes -> string, path: string, n: Node, root: string, w: World)
    ensures Sound(Walk(sha1, path, n, root, w))
    decreases Size(n), BelowRoot(path, root), 2
  {
    CallbackSound(sha1, path, n, root, w);
    var c := Callback(sha1, path, n, root, w);
    if n.Dir? && c.err.None? {
      WalkEntriesSound(sha1, path, n.entries, root, c.world);
      SoundSequence(c, WalkEntries(sha1, path, n.entries, root, c.world));
    }
  }

  lemma {:induction false} WalkEntriesSound(sha1: Bytes -> string, dir: string, es: seq<Node>, root: string, w: World)
    ensures Sound(WalkEntries(sha1, dir, es, root, w))
    decreases SizeAll(es), 3, 0
  {
    if es != [] {
      WalkEntriesSound(sha1, dir, es[..|es| - 1], root, w);
      var done := WalkEntries(sha1, dir, es[..|es| - 1], root, w);
      if done.err.None? {
        var last := es[|es| - 1];
        WalkSound(sha1, Join(dir, last.name), last, root, done.world);
        SoundSequence(done, Walk(sha1, Join(dir, last.name), last, root, done.world));
      }
    }
  }

  /** GetDir calls Get only on ".sha1" paths, skipping everything else without
      error, and stops at the first error, which it returns. */
  lemma GetDirSound(sha1: Bytes -> string, root: string, n: Node, w: World)
    ensures Sound(GetDirSpec(sha1, root, n, w))
  {
    WalkSound(sha1, root, n, root, w);
  }

  // ---------------------------------------------------------------------------
  // Walk errors come only from unreadable nodes

  /** The tree `n` has no node that the walk fails to stat or list. */
  ghost predicate NoBroken(n: Node)
    decreases Size(n), 0
  {
    match n
    case Leaf(_) => true
    case Broken(_) => false
    case Dir(_, es) => NoBrokenIn(es)
  }

  ghost predicate NoBrokenIn(es: seq<Node>)
    decreases SizeAll(es), 1
  {
    es == [] || (NoBrokenIn(es[..|es| - 1]) && NoBroken(es[|es| - 1]))
  }

  /** Get reports only its own errors, never a walk error. */
  lemma VisitFileNoWalkError(sha1: Bytes -> string, path: string, w: World)
    ensures var r := VisitFile(sha1, path, w);
            r.err.Some? ==> !r.err.value.WalkFailed?
  {
    if Ext(path) == PointerSuffix {
      GetNeverWalkFailed(sha1, path, w);
    }
  }

  lemma {:induction false} CallbackNoWalkError(sha1: Bytes -> string, path: string, n: Node, root: string, w: World)
    ensures var r := Callback(sha1, path, n, root, w);
            NoBroken(n) ==> (r.err.Some? ==> !r.err.value.WalkFailed?)
    decreases Size(n), BelowRoot(path, root), 1
  {
    if n.Broken? {
    } else if n.Dir? && path != root && n.name != "." && n.name != ".." {
      WalkNoWalkError(sha1, path, n, path, w);
    } else {
      VisitFileNoWalkError(sha1, path, w);
    }
  }

  lemma {:induction false} WalkNoWalkError(sha1: Bytes -> string, path: string, n: Node, root: string, w: World)
    ensures var r := Walk(sha1, path, n, root, w);
            NoBroken(n) ==> (r.err.Some? ==> !r.err.value.WalkFailed?)
    decreases Size(n), BelowRoot(path, root), 2
  {
    CallbackNoWalkError(sha1, path, n, root, w);
    var c := Callback(sha1, path, n, root, w);
    if n.Dir? && c.err.None? {
      EntriesNoWalkError(sha1, path, n.entries, root, c.world);
    }
  }

  lemma {:induction false} EntriesNoWalkError(sha1: Bytes -> string, dir: string, es: seq<Node>, root: string, w: World)
    ensures var r := WalkEntries(sha1, dir, es, root, w);
            NoBrokenIn(es) ==> (r.err.Some? ==> !r.err.value.WalkFailed?)
    decreases SizeAll(es), 3, 0
  {
    if es != [] {
      EntriesNoWalkError(sha1, dir, es[..|es| - 1], root, w);
      var done := WalkEntries(sha1, dir, es[..|es| - 1], root, w);
      if done.err.None? {
        var last := es[|es| - 1];
        WalkNoWalkError(sha1, Join(dir, last.name), last, root, done.world);
      }
    }
  }

  /** On a tree the walk can read throughout, GetDir fails only when a Get call
      fails: the error it returns is then that of its last Get call. */
  lemma GetDirFailsOnlyThroughGet(sha1: Bytes -> string, root: string, n: Node, w: World)
    requires NoBroken(n)
    ensures var r := GetDirSpec(sha1, root, n, w);
            r.err.Some? ==> |r.visits| > 0 && r.visits[|r.visits| - 1].outcome == Failed(r.err.value)
  {
    WalkNoWalkError(sha1, root, n, root, w);
    GetDirSound(sha1, root, n, w);
  }

  /** On such a tree, GetDir returns nil exactly when every Get call it made
      returned nil. */
  lemma GetDirNilIffGetsNil(sha1: Bytes -> string, root: string, n: Node, w: World)
    requires NoBroken(n)
    ensures var r := GetDirSpec(sha1, root, n, w);
            r.err.None? <==> forall i :: 0 <= i < |r.visits| ==> ReturnsNil(r.visits[i].outcome)
  {
    GetDirFailsOnlyThroughGet(sha1, root, n, w);
    GetDirSound(sha1, root, n, w);
    var r := GetDirSpec(sha1, root, n, w);
    if r.err.Some? {
      assert !ReturnsNil(r.visits[|r.visits| - 1].outcome);
    }
  }

  // ---------------------------------------------------------------------------
  // Every pointer file is handed to Get

  /** The paths of the files with the ".sha1" extension in the tree `n` at `path`,
      in the order the walk reaches them. */
  function PointerFiles(path: string, n: Node): (ps: seq<string>)
    decreases Size(n), 0
  {
    match n
    case Leaf(_) => if Ext(path) == PointerSuffix then [path] else []
    case Broken(_) => []
    case Dir(_, es) => PointerFilesIn(path, es)
  }

  function PointerFilesIn(dir: string, es: seq<Node>): (ps: seq<string>)
    decreases SizeAll(es), 1
  {
    if es == [] then []
    else PointerFilesIn(dir, es[..|es| - 1]) + PointerFiles(Join(dir, es[|es| - 1].name), es[|es| - 1])
  }

  ghost function VisitedPaths(r: WalkRun): set<string> {
    set i | 0 <= i < |r.visits| :: r.visits[i].path
  }

  lemma VisitedConcat(a: WalkRun, b: WalkRun, err: Option<Error>, w: World)
    ensures VisitedPaths(WalkRun(err, a.visits + b.visits, w)) == VisitedPaths(a) + VisitedPaths(b)
  {
    var c := WalkRun(err, a.visits + b.visits, w);
    forall p | p in VisitedPaths(c) ensures p in VisitedPaths(a) + VisitedPaths(b) {
      var i :| 0 <= i < |c.visits| && c.visits[i].path == p;
      if i < |a.visits| {
        assert a.visits[i] == c.visits[i];
      } else {
        assert b.visits[i - |a.visits|] == c.visits[i];
      }
    }
    forall p | p in VisitedPaths(a) + VisitedPaths(b) ensures p in VisitedPaths(c) {
      if p in VisitedPaths(a) {
        var i :| 0 <= i < |a.visits| && a.visits[i].path == p;
        assert c.visits[i] == a.visits[i];
      } else {
        var i :| 0 <= i < |b.visits| && b.visits[i].path == p;
        assert c.visits[|a.visits| + i] == b.visits[i];
      }
    }
  }

  lemma {:induction false} WalkReachesPointers(sha1: Bytes -> string, path: string, n: Node, root: string, w: World)
    ensures var r := Walk(sha1, path, n, root, w);
            r.err.None? ==> forall p :: p in PointerFiles(path, n) ==> p in VisitedPaths(r)
    decreases Size(n), 2
  {
    var r := Walk(sha1, path, n, root, w);
    var c := Callback(sha1, path, n, root, w);
    if r.err.None? {
      match n
      case Leaf(_) =>
        assert c == VisitFile(sha1, path, w);
        if Ext(path) == PointerSuffix {
          assert r.visits[0].path == path;
        }
      case Broken(_) =>
      case Dir(_, es) =>
        assert c.err.None?;
        var rest := WalkEntries(sha1, path, es, root, c.world);
        assert r == WalkRun(rest.err, c.visits + rest.visits, rest.world);
        WalkEntriesReachPointers(sha1, path, es, root, c.world);
        VisitedConcat(c, rest, rest.err, rest.world);
    }
  }

  lemma {:induction false} WalkEntriesReachPointers(sha1: Bytes -> string, dir: string, es: seq<Node>, root: string, w: World)
    ensures var r := WalkEntries(sha1, dir, es, root, w);
            r.err.None? ==> forall p :: p in PointerFilesIn(dir, es) ==> p in VisitedPaths(r)
    decreases SizeAll(es), 3
  {
    var r := WalkEntries(sha1, dir, es, root, w);
    if es != [] && r.err.None? {
      var front := es[..|es| - 1];
      var last := es[|es| - 1];
      var done := WalkEntries(sha1, dir, front, root, w);
      assert done.err.None?;
      var tail := Walk(sha1, Join(dir, last.name), last, root, done.world);
      assert r == WalkRun(tail.err, done.visits + tail.visits, tail.world);
      assert PointerFilesIn(dir, es) == PointerFilesIn(dir, front) + PointerFiles(Join(dir, last.name), last);
      WalkEntriesReachPointers(sha1, dir, front, root, w);
      WalkReachesPointers(sha1, Join(dir, last.name), last, root, done.world);
      VisitedConcat(done, tail, tail.err, tail.world);
    }
  }

  /** A GetDir that returns nil has handed every pointer file in the tree to Get
      at least once. */
  lemma GetDirReachesEveryPointer(sha1: Bytes -> string, root: string, n: Node, w: World)
    ensures var r := GetDirSpec(sha1, root, n, w);
            r.err.None? ==> forall p :: p in PointerFiles(root, n) ==> p in VisitedPaths(r)
  {
    WalkReachesPointers(sha1, root, n, root, w);
  }

  // ---------------------------------------------------------------------------
  // Repeated visits, as written and as intended

  /** The world of the example below: one pointer file, r/d/a.sha1, whose text is
      not a digest, so that Get on it stops with a nil error. */
  function ExampleWorld(): World {
    World(Disk(map["r/d/a.sha1" := File([120], PointerMode)], {}, {}, {}), Remote(map[], true, []))
  }

  lemma ExampleVisit(sha1: Bytes -> string, root: string)
    requires root != "r/d/a.sha1"
    ensures Walk(sha1, "r/d/a.sha1", Leaf("a.sha1"), root, ExampleWorld())
      == WalkRun(None, [Visit("r/d/a.sha1", InvalidPointer)], ExampleWorld())
  {
    var p := "r/d/a.sha1";
    assert HasSuffix(p, PointerSuffix);
    ExtIsPointerSuffix(p);
    GetInvalidPointerStops(sha1, p, ExampleWorld());
    assert Callback(sha1, p, Leaf("a.sha1"), root, ExampleWorld()) == VisitFile(sha1, p, ExampleWorld());
  }

  lemma ExampleDirectory(sha1: Bytes -> string, root: string)
    requires root == "r" || root == "r/d"
    ensures var d := Dir("d", [Leaf("a.sha1")]);
            WalkEntries(sha1, "r/d", d.entries, root, ExampleWorld())
              == WalkRun(None, [Visit("r/d/a.sha1", InvalidPointer)], ExampleWorld())
  {
    var es := [Leaf("a.sha1")];
    assert es[..0] == [];
    assert Join("r/d", "a.sha1") == "r/d/a.sha1" by {
      assert "r/d" + "/" + "a.sha1" == "r/d/a.sha1";
    }
    ExampleVisit(sha1, root);
  }

  /** As written: in the tree r/d/a.sha1, whose pointer Get handles without error,
      GetDir hands the one pointer file to Get twice: once from the nested GetDir
      on r/d and once more when the outer walk descends into r/d. */
  lemma NestedPointerVisitedTwice(sha1: Bytes -> string)
    ensures var p := "r/d/a.sha1";
            var r := GetDirSpec(sha1, "r", Dir("r", [Dir("d", [Leaf("a.sha1")])]), ExampleWorld());
            r.err.None? && r.visits == [Visit(p, InvalidPointer), Visit(p, InvalidPointer)]
  {
    var w := ExampleWorld();
    var d := Dir("d", [Leaf("a.sha1")]);
    var one := WalkRun(None, [Visit("r/d/a.sha1", InvalidPointer)], w);
    assert Ext("r/d") == [];
    ExampleDirectory(sha1, "r/d");
    assert Callback(sha1, "r/d", d, "r/d", w) == WalkRun(None, [], w);
    assert Walk(sha1, "r/d", d, "r/d", w) == one;
    ExampleDirectory(sha1, "r");
    assert Callback(sha1, "r/d", d, "r", w) == one;
    var twice := Walk(sha1, "r/d", d, "r", w);
    assert twice.visits == one.visits + one.visits;
    assert [d][..0] == [];
    assert Join("r", "d") == "r/d";
    assert WalkEntries(sha1, "r", [d], "r", w).visits == twice.visits;
    assert Ext("r") == [];
    assert Callback(sha1, "r", Dir("r", [d]), "r", w) == WalkRun(None, [], w);
  }

  /** The paths of a sequence of visits. */
  function Paths(vs: seq<Visit>): (ps: seq<string>)
    ensures |ps| == |vs|
    ensures forall i :: 0 <= i < |vs| ==> ps[i] == vs[i].path
  {
    seq(|vs|, i requires 0 <= i < |vs| => vs[i].path)
  }

  lemma PathsConcat(a: seq<Visit>, b: seq<Visit>)
    ensures Paths(a + b) == Paths(a) + Paths(b)
  {
  }

  /** GetDir as evidently intended: a callback that ignores directories and
      leaves the descent to the walk itself, so each file is reached by one walk
      only and Get is never called on a directory. */
  function WalkOnce(sha1: Bytes -> string, path: string, n: Node, w: World): (r: WalkRun)
    decreases Size(n), 0
  {
    match n
    case Broken(_) => WalkRun(Some(WalkFailed(path)), [], w)
    case Leaf(_) => VisitFile(sha1, path, w)
    case Dir(_, es) => WalkOnceEntries(sha1, path, es, w)
  }

  function WalkOnceEntries(sha1: Bytes -> string, dir: string, es: seq<Node>, w: World): (r: WalkRun)
    decreases SizeAll(es), 1
  {
    if es == [] then WalkRun(None, [], w)
    else
      var done := WalkOnceEntries(sha1, dir, es[..|es| - 1], w);
      if done.err.Some? then done
      else
        var last := es[|es| - 1];
        var r := WalkOnce(sha1, Join(dir, last.name), last, done.world);
        WalkRun(r.err, done.visits + r.visits, r.world)
  }

  /** The intended GetDir, when it returns nil, has handed Get exactly the pointer
      files of the tree, each once, in walk order. */
  lemma {:induction false} WalkOnceVisitsEachPointerOnce(sha1: Bytes -> string, path: string, n: Node, w: World)
    ensures var r := WalkOnce(sha1, path, n, w);
            r.err.None? ==> Paths(r.visits) == PointerFiles(path, n)
    decreases Size(n), 0
  {
    match n
    case Broken(_) =>
    case Leaf(_) =>
    case Dir(_, es) => WalkOnceEntriesVisitEachPointerOnce(sha1, path, es, w);
  }

  lemma {:induction false} WalkOnceEntriesVisitEachPointerOnce(sha1: Bytes -> string, dir: string, es: seq<Node>, w: World)
    ensures var r := WalkOnceEntries(sha1, dir, es, w);
            r.err.None? ==> Paths(r.visits) == PointerFilesIn(dir, es)
    decreases SizeAll(es), 1
  {
    var r := WalkOnceEntries(sha1, dir, es, w);
    if es != [] && r.err.None? {
      var front := es[..|es| - 1];
      var last := es[|es| - 1];
      var done := WalkOnceEntries(sha1, dir, front, w);
      assert done.err.None?;
      var tail := WalkOnce(sha1, Join(dir, last.name), last, done.world);
      WalkOnceEntriesVisitEachPointerOnce(sha1, dir, front, w);
      WalkOnceVisitsEachPointerOnce(sha1, Join(dir, last.name), last, done.world);
      PathsConcat(done.visits, tail.visits);
    }
  }

  /** On the tree where the program as written calls Get twice, the intended
      GetDir calls it once. */
  lemma NestedPointerVisitedOnce(sha1: Bytes -> string)
    ensures var r := WalkOnce(sha1, "r", Dir("r", [Dir("d", [Leaf("a.sha1")])]), ExampleWorld());
            r.err.None? && Paths(r.visits) == ["r/d/a.sha1"]
  {
    var p := "r/d/a.sha1";
    var w := ExampleWorld();
    var t := Dir("r", [Dir("d", [Leaf("a.sha1")])]);
    var one := WalkRun(None, [Visit(p, InvalidPointer)], w);
    assert Join("r", "d") == "r/d" && Join("r/d", "a.sha1") == p;
    assert HasSuffix(p, PointerSuffix);
    ExtIsPointerSuffix(p);
    GetInvalidPointerStops(sha1, p, w);
    assert [Leaf("a.sha1")][..0] == [] && [Dir("d", [Leaf("a.sha1")])][..0] == [];
    assert WalkOnce(sha1, p, Leaf("a.sha1"), w) == one;
    assert WalkOnce(sha1, "r/d", Dir("d", [Leaf("a.sha1")]), w) == one;
    assert WalkOnce(sha1, "r", t, w) == one;
  }
}
