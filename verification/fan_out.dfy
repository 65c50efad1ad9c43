/** The handlers run one file-system call per output, in the order of the
    outputs, each inside its own `try`/`catch`. These folds give the state
    after such a loop; each comes with a reference definition in which every
    output is treated as if it were the only one, and a lemma that the two
    agree: a failure on one output changes nothing there and does not affect
    any other output. */
module FanOut {
  import opened Paths
  import opened Disk

  // ---------------------------------------------------------------------------
  // copyFile

  /** One output of `copyFile`: a throw is caught and changes nothing. */
  function CopyStep(t: Tree, readOnly: set<Path>, src: Path, dest: Path): Tree
  {
    match CopyFileSync(t, readOnly, src, dest)
    case Some(t') => t'
    case None => t
  }

  /** The `forEach` over the destinations of all outputs, in order. */
  function CopyAll(t: Tree, readOnly: set<Path>, src: Path, dests: seq<Path>): Tree
    decreases |dests|
  {
    if dests == [] then t
    else CopyStep(CopyAll(t, readOnly, src, dests[..|dests| - 1]), readOnly, src, dests[|dests| - 1])
  }

  /** The fold over a prefix one longer does one more step. */
  lemma CopyAllPrefix(t: Tree, readOnly: set<Path>, src: Path, dests: seq<Path>, i: nat)
    requires i < |dests|
    ensures CopyAll(t, readOnly, src, dests[..i + 1]) == CopyStep(CopyAll(t, readOnly, src, dests[..i]), readOnly, src, dests[i])
  {
    assert dests[..i + 1][..i] == dests[..i];
  }

  /** Each destination receives the source file exactly when copying there
      would succeed on the original tree; nothing else changes. */
  function CopiedAlone(t: Tree, readOnly: set<Path>, src: Path, dests: seq<Path>): Tree
  {
    map p | p in t.Keys + (set d | d in dests && CanCopy(t, readOnly, src, d))
      :: if p in dests && CanCopy(t, readOnly, src, p) then t[src] else t[p]
  }

  /** Copying changes no path's being a directory, nor the source. */
  lemma CopiedAloneShape(t: Tree, readOnly: set<Path>, src: Path, dests: seq<Path>)
    ensures var r := CopiedAlone(t, readOnly, src, dests);
      (forall p :: IsDir(r, p) == IsDir(t, p)) && (IsFile(t, src) ==> src in r && r[src] == t[src])
  {
  }

  /** One more output on top of the reference state is the reference state
      for one more destination. */
  lemma CopiedAloneStep(t: Tree, readOnly: set<Path>, src: Path, init: seq<Path>, d: Path)
    ensures CopyStep(CopiedAlone(t, readOnly, src, init), readOnly, src, d) == CopiedAlone(t, readOnly, src, init + [d])
  {
    var a := CopiedAlone(t, readOnly, src, init);
    CopiedAloneShape(t, readOnly, src, init);
    assert CanCopy(a, readOnly, src, d) == CanCopy(t, readOnly, src, d);
    assert forall p :: p in init + [d] <==> p in init || p == d;
  }

  /** Isolation for `copyFile`: the loop ends in the state where every output
      was treated on its own. */
  lemma {:induction false} CopyAllIsolated(t: Tree, readOnly: set<Path>, src: Path, dests: seq<Path>)
    ensures CopyAll(t, readOnly, src, dests) == CopiedAlone(t, readOnly, src, dests)
    decreases |dests|
  {
    if dests == [] {
      assert CopiedAlone(t, readOnly, src, dests) == t;
    } else {
      var init, d := dests[..|dests| - 1], dests[|dests| - 1];
      CopyAllIsolated(t, readOnly, src, init);
      CopiedAloneStep(t, readOnly, src, init, d);
      assert init + [d] == dests;
    }
  }

  /** A repeated identical `copyFile` leaves the state it found. */
  lemma CopyAllIdempotent(t: Tree, readOnly: set<Path>, src: Path, dests: seq<Path>)
    ensures CopyAll(CopyAll(t, readOnly, src, dests), readOnly, src, dests) == CopyAll(t, readOnly, src, dests)
  {
    CopyAllIsolated(t, readOnly, src, dests);
    var a := CopiedAlone(t, readOnly, src, dests);
    CopyAllIsolated(a, readOnly, src, dests);
    CopiedAloneShape(t, readOnly, src, dests);
    assert forall d :: CanCopy(a, readOnly, src, d) == CanCopy(t, readOnly, src, d);
  }

  // ---------------------------------------------------------------------------
  // unlinkFile

  function UnlinkStep(t: Tree, readOnly: set<Path>, p: Path): Tree
  {
    match UnlinkSync(t, readOnly, p)
    case Some(t') => t'
    case None => t
  }

  function UnlinkAll(t: Tree, readOnly: set<Path>, dests: seq<Path>): Tree
    decreases |dests|
  {
    if dests == [] then t
    else UnlinkStep(UnlinkAll(t, readOnly, dests[..|dests| - 1]), readOnly, dests[|dests| - 1])
  }

  lemma UnlinkAllPrefix(t: Tree, readOnly: set<Path>, dests: seq<Path>, i: nat)
    requires i < |dests|
    ensures UnlinkAll(t, readOnly, dests[..i + 1]) == UnlinkStep(UnlinkAll(t, readOnly, dests[..i]), readOnly, dests[i])
  {
    assert dests[..i + 1][..i] == dests[..i];
  }

  /** Each destination that is an unlinkable file is removed; nothing else
      changes. */
  function UnlinkedAlone(t: Tree, readOnly: set<Path>, dests: seq<Path>): Tree
  {
    map p | p in t && !(p in dests && CanUnlink(t, readOnly, p)) :: t[p]
  }

  lemma {:induction false} UnlinkAllIsolated(t: Tree, readOnly: set<Path>, dests: seq<Path>)
    ensures UnlinkAll(t, readOnly, dests) == UnlinkedAlone(t, readOnly, dests)
    decreases |dests|
  {
    if dests == [] {
      assert UnlinkedAlone(t, readOnly, dests) == t;
    } else {
      var init, d := dests[..|dests| - 1], dests[|dests| - 1];
      UnlinkAllIsolated(t, readOnly, init);
      var a := UnlinkedAlone(t, readOnly, init);
      assert CanUnlink(a, readOnly, d) == (CanUnlink(t, readOnly, d) && !(d in init && CanUnlink(t, readOnly, d)));
      assert forall p :: p in dests <==> p in init || p == d;
    }
  }

  /** Removing the same files a second time changes nothing. */
  lemma UnlinkAllIdempotent(t: Tree, readOnly: set<Path>, dests: seq<Path>)
    ensures UnlinkAll(UnlinkAll(t, readOnly, dests), readOnly, dests) == UnlinkAll(t, readOnly, dests)
  {
    UnlinkAllIsolated(t, readOnly, dests);
    var a := UnlinkedAlone(t, readOnly, dests);
    UnlinkAllIsolated(a, readOnly, dests);
    assert forall d :: d in dests ==> !CanUnlink(a, readOnly, d);
  }

  // ---------------------------------------------------------------------------
  // mkDir and unlinkDir

  /** No destination lies strictly below another one. */
  predicate Unnested(dests: seq<Path>)
  {
    forall i, j :: 0 <= i < |dests| && 0 <= j < |dests| ==> !(dests[i] < dests[j])
  }

  /** One output of `mkDir`: `existsSync` first, then `mkdirSync` in `try`. */
  function MkdirStep(t: Tree, readOnly: set<Path>, p: Path): Tree
  {
    if Exists(t, p) then t
    else match MkdirSync(t, readOnly, p)
      case Some(t') => t'
      case None => t
  }

  function MkdirAll(t: Tree, readOnly: set<Path>, dests: seq<Path>): Tree
    decreases |dests|
  {
    if dests == [] then t
    else MkdirStep(MkdirAll(t, readOnly, dests[..|dests| - 1]), readOnly, dests[|dests| - 1])
  }

  lemma MkdirAllPrefix(t: Tree, readOnly: set<Path>, dests: seq<Path>, i: nat)
    requires i < |dests|
    ensures MkdirAll(t, readOnly, dests[..i + 1]) == MkdirStep(MkdirAll(t, readOnly, dests[..i]), readOnly, dests[i])
  {
    assert dests[..i + 1][..i] == dests[..i];
  }

  /** Each absent destination whose parent is a writable directory becomes a
      directory; nothing else changes. */
  function MadeAlone(t: Tree, readOnly: set<Path>, dests: seq<Path>): Tree
  {
    map p | p in t.Keys + (set d | d in dests && CanMkdir(t, readOnly, d)) :: if p in t then t[p] else Dir
  }

  /** Creating directories at `dests` changes no other path's being a
      directory, and a destination exists afterwards when it existed before
      or could be created. */
  lemma MadeAloneShape(t: Tree, readOnly: set<Path>, dests: seq<Path>)
    ensures var r := MadeAlone(t, readOnly, dests);
      (forall p :: p in r <==> p in t || (p in dests && CanMkdir(t, readOnly, p))) &&
      (forall p :: p in r ==> r[p] == if p in t then t[p] else Dir) &&
      (forall p :: p !in dests ==> IsDir(r, p) == IsDir(t, p)) &&
      (forall p :: Exists(r, p) <==> Exists(t, p) || (p in dests && CanMkdir(t, readOnly, p)))
  {
  }

  /** One more output on top of the reference state is the reference state
      for one more destination, provided the parent of the new destination
      is not among the earlier ones. */
  lemma MadeAloneStep(t: Tree, readOnly: set<Path>, init: seq<Path>, d: Path)
    requires d != [] ==> Parent(d) !in init
    ensures MkdirStep(MadeAlone(t, readOnly, init), readOnly, d) == MadeAlone(t, readOnly, init + [d])
  {
    var a := MadeAlone(t, readOnly, init);
    var r := MadeAlone(t, readOnly, init + [d]);
    MadeAloneShape(t, readOnly, init);
    MadeAloneShape(t, readOnly, init + [d]);
    assert forall p :: p in init + [d] <==> p in init || p == d;
    var step := MkdirStep(a, readOnly, d);
    if Exists(a, d) {
      assert r.Keys == a.Keys;
    } else {
      assert CanMkdir(a, readOnly, d) == CanMkdir(t, readOnly, d);
      assert step.Keys == r.Keys;
    }
  }

  lemma {:induction false} MkdirAllIsolated(t: Tree, readOnly: set<Path>, dests: seq<Path>)
    requires Unnested(dests)
    ensures MkdirAll(t, readOnly, dests) == MadeAlone(t, readOnly, dests)
    decreases |dests|
  {
    if dests == [] {
      assert MadeAlone(t, readOnly, dests) == t;
    } else {
      var init, d := dests[..|dests| - 1], dests[|dests| - 1];
      assert Unnested(init);
      MkdirAllIsolated(t, readOnly, init);
      assert d != [] ==> Parent(d) !in init by {
        if d != [] {
          assert Parent(d) < d;
        }
      }
      MadeAloneStep(t, readOnly, init, d);
      assert init + [d] == dests;
    }
  }

  /** Under `Unnested`, creating the same directories a second time changes
      nothing. */
  lemma MkdirAllIdempotent(t: Tree, readOnly: set<Path>, dests: seq<Path>)
    requires Unnested(dests)
    ensures MkdirAll(MkdirAll(t, readOnly, dests), readOnly, dests) == MkdirAll(t, readOnly, dests)
  {
    MkdirAllIsolated(t, readOnly, dests);
    var a := MadeAlone(t, readOnly, dests);
    MkdirAllIsolated(a, readOnly, dests);
    forall d | d in dests ensures !CanMkdir(a, readOnly, d) {
      MadeAloneSettled(t, readOnly, dests, d);
    }
    MadeAloneNothingNew(a, readOnly, dests);
  }

  /** After the reference state, no destination can be created any more:
      either it exists or its parent was not a writable directory, and that
      parent did not change. */
  lemma MadeAloneSettled(t: Tree, readOnly: set<Path>, dests: seq<Path>, d: Path)
    requires Unnested(dests) && d in dests
    ensures !CanMkdir(MadeAlone(t, readOnly, dests), readOnly, d)
  {
    var a := MadeAlone(t, readOnly, dests);
    MadeAloneShape(t, readOnly, dests);
    if !Exists(a, d) {
      assert Parent(d) !in dests by {
        assert Parent(d) < d;
      }
      assert IsDir(a, Parent(d)) == IsDir(t, Parent(d));
    }
  }

  /** When no destination can be created, the reference state is the
      starting state. */
  lemma MadeAloneNothingNew(t: Tree, readOnly: set<Path>, dests: seq<Path>)
    requires forall d :: d in dests ==> !CanMkdir(t, readOnly, d)
    ensures MadeAlone(t, readOnly, dests) == t
  {
    MadeAloneShape(t, readOnly, dests);
  }

  /** One output of `unlinkDir`: `existsSync` first, then `rmdirSync` in `try`. */
  function RmdirStep(t: Tree, readOnly: set<Path>, p: Path): Tree
  {
    if !Exists(t, p) then t
    else match RmdirSync(t, readOnly, p)
      case Some(t') => t'
      case None => t
  }

  function RmdirAll(t: Tree, readOnly: set<Path>, dests: seq<Path>): Tree
    decreases |dests|
  {
    if dests == [] then t
    else RmdirStep(RmdirAll(t, readOnly, dests[..|dests| - 1]), readOnly, dests[|dests| - 1])
  }

  lemma RmdirAllPrefix(t: Tree, readOnly: set<Path>, dests: seq<Path>, i: nat)
    requires i < |dests|
    ensures RmdirAll(t, readOnly, dests[..i + 1]) == RmdirStep(RmdirAll(t, readOnly, dests[..i]), readOnly, dests[i])
  {
    assert dests[..i + 1][..i] == dests[..i];
  }

  /** Each destination that is an empty, writable directory is removed;
      nothing else changes. */
  function RemovedAlone(t: Tree, readOnly: set<Path>, dests: seq<Path>): Tree
  {
    map p | p in t && !(p in dests && CanRmdir(t, readOnly, p)) :: t[p]
  }

  lemma {:induction false} RmdirAllIsolated(t: Tree, readOnly: set<Path>, dests: seq<Path>)
    requires Unnested(dests)
    ensures RmdirAll(t, readOnly, dests) == RemovedAlone(t, readOnly, dests)
    decreases |dests|
  {
    if dests == [] {
      assert RemovedAlone(t, readOnly, dests) == t;
    } else {
      var init, d := dests[..|dests| - 1], dests[|dests| - 1];
      assert Unnested(init);
      RmdirAllIsolated(t, readOnly, init);
      var a := RemovedAlone(t, readOnly, init);
      if d in a {
        assert HasEntriesBelow(a, d) == HasEntriesBelow(t, d) by {
          if HasEntriesBelow(t, d) {
            var p :| p in t && d < p;
            assert p !in init;
            assert p in a;
          }
        }
      }
      assert forall p :: p in dests <==> p in init || p == d;
    }
  }

  /** Under `Unnested`, removing the same directories a second time changes
      nothing. */
  lemma RmdirAllIdempotent(t: Tree, readOnly: set<Path>, dests: seq<Path>)
    requires Unnested(dests)
    ensures RmdirAll(RmdirAll(t, readOnly, dests), readOnly, dests) == RmdirAll(t, readOnly, dests)
  {
    RmdirAllIsolated(t, readOnly, dests);
    var a := RemovedAlone(t, readOnly, dests);
    RmdirAllIsolated(a, readOnly, dests);
    forall d | d in dests ensures !CanRmdir(a, readOnly, d) {
      if d in a {
        assert HasEntriesBelow(a, d) == HasEntriesBelow(t, d) by {
          if HasEntriesBelow(t, d) {
            var p :| p in t && d < p;
            assert p !in dests;
            assert p in a;
          }
        }
      }
    }
  }

  // ---------------------------------------------------------------------------
  // Removal after copy

  /** When removal aims at the destinations the copy wrote, every file the
      copy wrote is gone afterwards. */
  lemma CopyThenUnlinkRemovesCopies(t: Tree, readOnly: set<Path>, src: Path, dests: seq<Path>)
    ensures forall d :: d in dests && CanCopy(t, readOnly, src, d) ==>
      d !in UnlinkAll(CopyAll(t, readOnly, src, dests), readOnly, dests)
  {
    CopyAllIsolated(t, readOnly, src, dests);
    var a := CopiedAlone(t, readOnly, src, dests);
    UnlinkAllIsolated(a, readOnly, dests);
  }
}
