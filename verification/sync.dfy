/** The `sync` closure: the output list it resolves, the folders it cleans,
    the four event handlers that mirror the watched trees into every output,
    and the once-only idle flag. Its mutable state (the output list, the
    disk and the `_done` flag) lives in a `Session`. */
module Sync {
  import opened Strings
  import opened Paths
  import opened Disk
  import opened FanOut

  // ---------------------------------------------------------------------------
  // Specification functions

  /** The resolved destination of `item` in each of `repos`, in order. */
  function Dests(cwd: Path, repos: seq<string>, item: string): (dests: seq<Path>)
    ensures |dests| == |repos|
    decreases |repos|
  {
    if repos == [] then []
    else Dests(cwd, repos[..|repos| - 1], item) + [DestPath(cwd, repos[|repos| - 1], item)]
  }

  /** The repositories `searchForRepositories` reports: each output resolved
      to an absolute path string. */
  function Repositories(cwd: Path, outputs: seq<string>): (found: seq<string>)
    ensures |found| == |outputs|
    ensures forall i :: 0 <= i < |outputs| ==> found[i] == PathString(Resolve(cwd, outputs[i]))
    decreases |outputs|
  {
    if outputs == [] then []
    else Repositories(cwd, outputs[..|outputs| - 1]) + [PathString(Resolve(cwd, outputs[|outputs| - 1]))]
  }

  /** The cells one pass of the inner loop of `for (row of rows) for (col
      of cols)` produces, in order. */
  function Row<T>(row: string, cols: seq<string>, cell: (string, string) -> T): (r: seq<T>)
    ensures |r| == |cols|
    ensures forall b :: 0 <= b < |cols| ==> r[b] == cell(row, cols[b])
    decreases |cols|
  {
    if cols == [] then []
    else Row(row, cols[..|cols| - 1], cell) + [cell(row, cols[|cols| - 1])]
  }

  /** The cells the whole nested loop produces, rows outer, in order. */
  function Table<T>(rows: seq<string>, cols: seq<string>, cell: (string, string) -> T): seq<T>
    decreases |rows|
  {
    if rows == [] then []
    else Table(rows[..|rows| - 1], cols, cell) + Row(rows[|rows| - 1], cols, cell)
  }

  lemma RowPrefix<T>(row: string, cols: seq<string>, cell: (string, string) -> T, b: nat)
    requires b < |cols|
    ensures Row(row, cols[..b + 1], cell) == Row(row, cols[..b], cell) + [cell(row, cols[b])]
  {
    assert cols[..b + 1][..b] == cols[..b];
  }

  lemma TablePrefix<T>(rows: seq<string>, cols: seq<string>, cell: (string, string) -> T, a: nat)
    requires a < |rows|
    ensures Table(rows[..a + 1], cols, cell) == Table(rows[..a], cols, cell) + Row(rows[a], cols, cell)
  {
    assert rows[..a + 1][..a] == rows[..a];
  }

  /** All clean keys: outputs in the outer loop, inputs in the inner one. */
  function CleanKeys(outputs: seq<string>, inputs: seq<string>): seq<string>
  {
    Table(outputs, inputs, CleanKey)
  }

  function ResolveAll(cwd: Path, keys: seq<string>): (targets: seq<Path>)
    ensures |targets| == |keys|
    ensures forall i :: 0 <= i < |keys| ==> targets[i] == Resolve(cwd, keys[i])
    decreases |keys|
  {
    if keys == [] then []
    else ResolveAll(cwd, keys[..|keys| - 1]) + [Resolve(cwd, keys[|keys| - 1])]
  }

  lemma AppendAssoc<T>(a: seq<T>, b: seq<T>, x: T)
    ensures a + b + [x] == a + (b + [x])
  {
  }

  lemma ResolveAllSnoc(cwd: Path, keys: seq<string>, key: string)
    ensures ResolveAll(cwd, keys + [key]) == ResolveAll(cwd, keys) + [Resolve(cwd, key)]
  {
    assert (keys + [key])[..|keys|] == keys;
  }

  /** The disk after `rimraf` of every target: what lies at or below one of
      them is gone, the rest is kept. */
  function CleanedBy(t: Tree, targets: seq<Path>): Tree
  {
    map q | q in t && (forall k :: k in targets ==> !(k <= q)) :: t[q]
  }

  // ---------------------------------------------------------------------------
  // Lemmas about the specification functions

  /** `searchForRepositories` keeps one entry per output, in order, and each
      entry resolves back to the path its output names, so the destinations
      computed from it are unchanged. */
  lemma RepositoriesResolve(cwd: Path, outputs: seq<string>)
    requires IsNormal(cwd)
    ensures |Repositories(cwd, outputs)| == |outputs|
    ensures forall i :: 0 <= i < |outputs| ==>
      Resolve(cwd, Repositories(cwd, outputs)[i]) == Resolve(cwd, outputs[i])
  {
    forall i | 0 <= i < |outputs|
      ensures Resolve(cwd, Repositories(cwd, outputs)[i]) == Resolve(cwd, outputs[i])
    {
      ResolvePathString(cwd, Resolve(cwd, outputs[i]));
    }
  }

  /** Where row `a` of a table with rows of length `m` starts, counted by
      repeated addition. */
  function Offset(a: nat, m: nat): nat
  {
    if a == 0 then 0 else Offset(a - 1, m) + m
  }

  lemma {:induction false} OffsetIsProduct(a: nat, m: nat)
    ensures Offset(a, m) == a * m
  {
    if a > 0 {
      OffsetIsProduct(a - 1, m);
      assert (a - 1) * m + m == a * m;
    }
  }

  /** Row `a` ends no later than row `n` starts when `a < n`. */
  lemma {:induction false} OffsetBound(a: nat, b: nat, n: nat, m: nat)
    requires a < n && b < m
    ensures Offset(a, m) + b < Offset(n, m)
    decreases n
  {
    if a < n - 1 {
      OffsetBound(a, b, n - 1, m);
    }
  }

  lemma {:induction false} TableLength<T>(rows: seq<string>, cols: seq<string>, cell: (string, string) -> T)
    ensures |Table(rows, cols, cell)| == Offset(|rows|, |cols|)
    decreases |rows|
  {
    if rows != [] {
      TableLength(rows[..|rows| - 1], cols, cell);
    }
  }

  /** Cell number `Offset(a, |cols|) + b` is the one of row `a` and column `b`. */
  lemma {:induction false} TableAt<T>(rows: seq<string>, cols: seq<string>, cell: (string, string) -> T, a: nat, b: nat)
    requires a < |rows| && b < |cols|
    ensures Offset(a, |cols|) + b < |Table(rows, cols, cell)|
    ensures Table(rows, cols, cell)[Offset(a, |cols|) + b] == cell(rows[a], cols[b])
    decreases |rows|
  {
    var n := |rows|;
    var init := rows[..n - 1];
    TableLength(rows, cols, cell);
    TableLength(init, cols, cell);
    OffsetBound(a, b, n, |cols|);
    if a < n - 1 {
      TableAt(init, cols, cell, a, b);
      assert init[a] == rows[a];
    }
  }

  /** `cleanDirectories` visits `|outputs| * |inputs|` keys. */
  lemma CleanKeysCount(outputs: seq<string>, inputs: seq<string>)
    ensures |CleanKeys(outputs, inputs)| == |outputs| * |inputs|
  {
    TableLength(outputs, inputs, CleanKey);
    OffsetIsProduct(|outputs|, |inputs|);
  }

  /** Outputs are the outer loop and inputs the inner one: key number
      `a * |inputs| + b` is `outputs[a]/<last segment of inputs[b]>`. */
  lemma CleanKeyAt(outputs: seq<string>, inputs: seq<string>, a: nat, b: nat)
    requires a < |outputs| && b < |inputs|
    ensures a * |inputs| + b < |CleanKeys(outputs, inputs)|
    ensures CleanKeys(outputs, inputs)[a * |inputs| + b] == CleanKey(outputs[a], inputs[b])
  {
    TableAt(outputs, inputs, CleanKey, a, b);
    OffsetIsProduct(a, |inputs|);
  }

  /** Every pair of an output and an input has its key cleaned. */
  lemma CleanKeyListed(outputs: seq<string>, inputs: seq<string>, a: nat, b: nat)
    requires a < |outputs| && b < |inputs|
    ensures CleanKey(outputs[a], inputs[b]) in CleanKeys(outputs, inputs)
  {
    TableAt(outputs, inputs, CleanKey, a, b);
  }

  /** One more `rimraf` on top of the cleaned disk. */
  lemma CleanedByStep(t: Tree, targets: seq<Path>, k: Path)
    ensures Rimraf(CleanedBy(t, targets), k) == CleanedBy(t, targets + [k])
  {
    var before := CleanedBy(t, targets);
    var after := CleanedBy(t, targets + [k]);
    var r := Rimraf(before, k);
    forall q | q in after ensures q in r {
      assert k in targets + [k];
      forall x | x in targets ensures !(x <= q) {
        assert x in targets + [k];
      }
    }
    forall q | q in r ensures q in after {
      forall x | x in targets + [k] ensures !(x <= q) {
        assert x in targets || x == k;
      }
    }
    assert r.Keys == after.Keys;
  }

  /** After cleaning, nothing is left at or below any of the targets, and
      every other entry is kept with its content. */
  lemma CleanedByShape(t: Tree, targets: seq<Path>)
    ensures var r := CleanedBy(t, targets);
      (forall q, i :: q in r && 0 <= i < |targets| ==> !(targets[i] <= q)) &&
      (forall q :: q in t && (forall i :: 0 <= i < |targets| ==> !(targets[i] <= q)) ==> q in r && r[q] == t[q])
  {
    var r := CleanedBy(t, targets);
    forall q, i | q in r && 0 <= i < |targets| ensures !(targets[i] <= q) {
      assert targets[i] in targets;
    }
    forall q | q in t && (forall i :: 0 <= i < |targets| ==> !(targets[i] <= q)) ensures q in r {
      forall x | x in targets ensures !(x <= q) {
        var i :| 0 <= i < |targets| && targets[i] == x;
      }
    }
  }

  /** A file copied from below an input lands strictly inside the folder
      `cleanDirectories` removed for that input and that output: the clean
      key of the pair is among the keys, and the copy destination extends
      it with the path of the file inside the watch root. */
  lemma CopyLandsInCleanedFolder(cwd: Path, outputs: seq<string>, inputs: seq<string>, a: nat, b: nat,
                                 parent: string, name: string, sub: string)
    requires IsNormal(cwd) && cwd != []
    requires a < |outputs| && outputs[a] != "" && b < |inputs| && inputs[b] == parent + "/" + name
    requires Ordinary(name) && IsNormal(Split(sub, "/"))
    requires !Contains(name + "/" + sub, parent + "/")
    ensures CleanKey(outputs[a], inputs[b]) in CleanKeys(outputs, inputs)
    ensures Resolve(cwd, CleanKey(outputs[a], inputs[b])) + Split(sub, "/")
         == DestPath(cwd, outputs[a], RelativeName(parent + "/" + name + "/" + sub, inputs[b]))
  {
    CleanKeyListed(outputs, inputs, a, b);
    CopyDestUnderCleanKey(cwd, outputs[a], parent, name, sub);
  }

  /** The watchers `run` sets up, one per input, in order. */
  function Watchers(cwd: Path, inputs: seq<string>): (ws: seq<Watcher>)
    ensures |ws| == |inputs|
    ensures forall j :: 0 <= j < |inputs| ==> ws[j].root == Resolve(cwd, inputs[j]) && ws[j].ignored == IgnoredGlobs(inputs[j])
    decreases |inputs|
  {
    if inputs == [] then []
    else Watchers(cwd, inputs[..|inputs| - 1]) + [Watcher(Resolve(cwd, inputs[|inputs| - 1]), IgnoredGlobs(inputs[|inputs| - 1]))]
  }

  /** The watcher set up for one input: the resolved root and the ignore
      globs. */
  datatype Watcher = Watcher(root: Path, ignored: seq<string>)

  /** A watcher event: the path chokidar reports with it. */
  datatype Event = Add(file: string) | Change(file: string) | Unlink(file: string)
                 | AddDir(dir: string) | UnlinkDir(dir: string)

  // ---------------------------------------------------------------------------
  // The session

  class Session {
    const cwd: Path
    const inputs: seq<string>
    var outputs: seq<string>
    var disk: Tree
    /** Locations where every write throws. */
    const readOnly: set<Path>
    /** The `watch` argument: keep watching after the first pass. */
    const watch: bool
    var done: bool
    /** Idle notices scheduled by `done()` with `setTimeout`. */
    var notices: nat

    predicate Valid()
      reads this
    {
      IsNormal(cwd) && WellFormed(disk) && notices == (if done then 1 else 0)
    }

    constructor (cwd: Path, inputs: seq<string>, outputs: seq<string>, watch: bool, disk: Tree, readOnly: set<Path>)
      requires IsNormal(cwd) && WellFormed(disk)
      ensures Valid()
      ensures this.cwd == cwd && this.inputs == inputs && this.outputs == outputs && this.watch == watch
      ensures this.disk == disk && this.readOnly == readOnly && !done
    {
      this.watch := watch;
      this.cwd := cwd;
      this.inputs := inputs;
      this.outputs := outputs;
      this.disk := disk;
      this.readOnly := readOnly;
      done := false;
      notices := 0;
    }

    /** `searchForRepositories`: every output resolved, in order. A resolved
        path is never empty, so none is dropped. */
    method SearchForRepositories() returns (found: seq<string>)
      requires Valid()
      ensures found == Repositories(cwd, outputs)
      ensures |found| == |outputs|
      ensures forall i :: 0 <= i < |outputs| ==> Resolve(cwd, found[i]) == Resolve(cwd, outputs[i])
    {
      found := [];
      var i := 0;
      while i < |outputs|
        invariant 0 <= i <= |outputs|
        invariant found == Repositories(cwd, outputs[..i])
      {
        var resolved := PathString(Resolve(cwd, outputs[i]));
        if |resolved| > 0 {
          found := found + [resolved];
        }
        assert outputs[..i + 1][..i] == outputs[..i];
        i := i + 1;
      }
      assert outputs[..i] == outputs;
      RepositoriesResolve(cwd, outputs);
    }

    /** `cleanDirectories`: for each output and then each input, `rimraf` of
        `repo/<last segment of input>`. Returns the keys in visiting order. */
    method CleanDirectories() returns (keys: seq<string>)
      requires Valid()
      modifies this`disk
      ensures Valid()
      ensures keys == CleanKeys(outputs, inputs)
      ensures disk == CleanedBy(old(disk), ResolveAll(cwd, keys))
    {
      keys := [];
      ghost var targets: seq<Path> := [];
      var a := 0;
      while a < |outputs|
        invariant 0 <= a <= |outputs|
        invariant keys == Table(outputs[..a], inputs, CleanKey) && targets == ResolveAll(cwd, keys)
        invariant disk == CleanedBy(old(disk), targets) && WellFormed(disk)
      {
        var repo := outputs[a];
        ghost var earlier := keys;
        var b := 0;
        while b < |inputs|
          invariant 0 <= b <= |inputs|
          invariant keys == earlier + Row(repo, inputs[..b], CleanKey)
          invariant targets == ResolveAll(cwd, keys)
          invariant disk == CleanedBy(old(disk), targets) && WellFormed(disk)
        {
          var key := CleanKey(repo, inputs[b]);
          var target := Resolve(cwd, key);
          CleanedByStep(old(disk), targets, target);
          disk := Rimraf(disk, target);
          RowPrefix(repo, inputs, CleanKey, b);
          ResolveAllSnoc(cwd, keys, key);
          AppendAssoc(earlier, Row(repo, inputs[..b], CleanKey), key);
          keys := keys + [key];
          targets := targets + [target];
          b := b + 1;
        }
        assert inputs[..b] == inputs;
        TablePrefix(outputs, inputs, CleanKey, a);
        a := a + 1;
      }
      assert outputs[..a] == outputs;
    }

    /** `copyFile(file, _watch)`: the file is copied to its mirrored name in
        every output; a failure on one output is caught. The result is the
        state in which every output was treated on its own. */
    method CopyFile(file: string, watchRoot: string)
      requires Valid()
      modifies this`disk
      ensures Valid()
      ensures disk == CopyAll(old(disk), readOnly, Resolve(cwd, file), Dests(cwd, outputs, RelativeName(file, watchRoot)))
      ensures disk == CopiedAlone(old(disk), readOnly, Resolve(cwd, file), Dests(cwd, outputs, RelativeName(file, watchRoot)))
    {
      CopyTo(Resolve(cwd, file), RelativeName(file, watchRoot));
    }

    /** The `forEach` of `copyFileSync(src, destPath(repo, item))`. */
    method CopyTo(src: Path, item: string)
      requires Valid()
      modifies this`disk
      ensures Valid()
      ensures disk == CopyAll(old(disk), readOnly, src, Dests(cwd, outputs, item))
      ensures disk == CopiedAlone(old(disk), readOnly, src, Dests(cwd, outputs, item))
    {
      ghost var dests := Dests(cwd, outputs, item);
      var i := 0;
      while i < |outputs|
        invariant 0 <= i <= |outputs|
        invariant disk == CopyAll(old(disk), readOnly, src, dests[..i])
        invariant WellFormed(disk)
      {
        var dest := DestPath(cwd, outputs[i], item);
        DestsAt(cwd, outputs, item, i);
        CopyAllPrefix(old(disk), readOnly, src, dests, i);
        var r := CopyFileSync(disk, readOnly, src, dest);
        if r.Some? {
          disk := r.value;
        }
        i := i + 1;
      }
      assert dests[..i] == dests;
      CopyAllIsolated(old(disk), readOnly, src, Dests(cwd, outputs, item));
    }

    /** `unlinkFile(file)`: the destination computed from the raw event path
        is unlinked in every output; failures are caught. */
    method UnlinkFile(file: string)
      requires Valid()
      modifies this`disk
      ensures Valid()
      ensures disk == UnlinkedAlone(old(disk), readOnly, Dests(cwd, outputs, file))
    {
      RemoveFiles(file);
    }

    /** The removal the handlers evidently intend: the same mirrored name
        `copyFile` writes to, so that every copy made is removed. */
    method UnlinkCopiedFile(file: string, watchRoot: string)
      requires Valid()
      modifies this`disk
      ensures Valid()
      ensures disk == UnlinkedAlone(old(disk), readOnly, Dests(cwd, outputs, RelativeName(file, watchRoot)))
    {
      RemoveFiles(RelativeName(file, watchRoot));
    }

    /** The `forEach` of `unlinkSync` on `destPath(repo, item)`. */
    method RemoveFiles(item: string)
      requires Valid()
      modifies this`disk
      ensures Valid()
      ensures disk == UnlinkAll(old(disk), readOnly, Dests(cwd, outputs, item))
      ensures disk == UnlinkedAlone(old(disk), readOnly, Dests(cwd, outputs, item))
    {
      ghost var dests := Dests(cwd, outputs, item);
      var i := 0;
      while i < |outputs|
        invariant 0 <= i <= |outputs|
        invariant disk == UnlinkAll(old(disk), readOnly, dests[..i])
        invariant WellFormed(disk)
      {
        var dest := DestPath(cwd, outputs[i], item);
        DestsAt(cwd, outputs, item, i);
        UnlinkAllPrefix(old(disk), readOnly, dests, i);
        var r := UnlinkSync(disk, readOnly, dest);
        if r.Some? {
          disk := r.value;
        }
        i := i + 1;
      }
      assert dests[..i] == dests;
      UnlinkAllIsolated(old(disk), readOnly, Dests(cwd, outputs, item));
    }

    /** `mkDir(dir, _watch)`: in every output where the mirrored directory
        does not exist yet, it is created; failures are caught. */
    method MkDir(dir: string, watchRoot: string)
      requires Valid()
      modifies this`disk
      ensures Valid()
      ensures disk == MkdirAll(old(disk), readOnly, Dests(cwd, outputs, RelativeName(dir, watchRoot)))
      ensures Unnested(Dests(cwd, outputs, RelativeName(dir, watchRoot))) ==>
        disk == MadeAlone(old(disk), readOnly, Dests(cwd, outputs, RelativeName(dir, watchRoot)))
    {
      MakeDirs(RelativeName(dir, watchRoot));
    }

    /** The `forEach` of `existsSync` and `mkdirSync` on `destPath(repo, item)`. */
    method MakeDirs(item: string)
      requires Valid()
      modifies this`disk
      ensures Valid()
      ensures disk == MkdirAll(old(disk), readOnly, Dests(cwd, outputs, item))
      ensures Unnested(Dests(cwd, outputs, item)) ==> disk == MadeAlone(old(disk), readOnly, Dests(cwd, outputs, item))
    {
      ghost var dests := Dests(cwd, outputs, item);
      var i := 0;
      while i < |outputs|
        invariant 0 <= i <= |outputs|
        invariant disk == MkdirAll(old(disk), readOnly, dests[..i])
        invariant WellFormed(disk)
      {
        var dest := DestPath(cwd, outputs[i], item);
        DestsAt(cwd, outputs, item, i);
        MkdirAllPrefix(old(disk), readOnly, dests, i);
        if !Exists(disk, dest) {
          var r := MkdirSync(disk, readOnly, dest);
          if r.Some? {
            disk := r.value;
          }
        }
        i := i + 1;
      }
      assert dests[..i] == dests;
      if Unnested(Dests(cwd, outputs, item)) {
        MkdirAllIsolated(old(disk), readOnly, Dests(cwd, outputs, item));
      }
    }

    /** `unlinkDir(dir)`: the destination computed from the raw event path
        is removed in every output where it exists; failures are caught. */
    method UnlinkDir(dir: string)
      requires Valid()
      modifies this`disk
      ensures Valid()
      ensures disk == RmdirAll(old(disk), readOnly, Dests(cwd, outputs, dir))
      ensures Unnested(Dests(cwd, outputs, dir)) ==>
        disk == RemovedAlone(old(disk), readOnly, Dests(cwd, outputs, dir))
    {
      RemoveDirs(dir);
    }

    /** The directory removal the handlers evidently intend: the same
        mirrored name `mkDir` creates. */
    method UnlinkCopiedDir(dir: string, watchRoot: string)
      requires Valid()
      modifies this`disk
      ensures Valid()
      ensures disk == RmdirAll(old(disk), readOnly, Dests(cwd, outputs, RelativeName(dir, watchRoot)))
      ensures Unnested(Dests(cwd, outputs, RelativeName(dir, watchRoot))) ==>
        disk == RemovedAlone(old(disk), readOnly, Dests(cwd, outputs, RelativeName(dir, watchRoot)))
    {
      RemoveDirs(RelativeName(dir, watchRoot));
    }

    /** The `forEach` of `existsSync` and `rmdirSync` on `destPath(repo, item)`. */
    method RemoveDirs(item: string)
      requires Valid()
      modifies this`disk
      ensures Valid()
      ensures disk == RmdirAll(old(disk), readOnly, Dests(cwd, outputs, item))
      ensures Unnested(Dests(cwd, outputs, item)) ==> disk == RemovedAlone(old(disk), readOnly, Dests(cwd, outputs, item))
    {
      ghost var dests := Dests(cwd, outputs, item);
      var i := 0;
      while i < |outputs|
        invariant 0 <= i <= |outputs|
        invariant disk == RmdirAll(old(disk), readOnly, dests[..i])
        invariant WellFormed(disk)
      {
        var dest := DestPath(cwd, outputs[i], item);
        DestsAt(cwd, outputs, item, i);
        RmdirAllPrefix(old(disk), readOnly, dests, i);
        if Exists(disk, dest) {
          var r := RmdirSync(disk, readOnly, dest);
          if r.Some? {
            disk := r.value;
          }
        }
        i := i + 1;
      }
      assert dests[..i] == dests;
      if Unnested(Dests(cwd, outputs, item)) {
        RmdirAllIsolated(old(disk), readOnly, Dests(cwd, outputs, item));
      }
    }

    /** The handlers the watcher of `watchRoot` registers, by event kind, as
        written: the removal events pass the raw event path. */
    method OnEvent(e: Event, watchRoot: string)
      requires Valid()
      modifies this`disk
      ensures Valid()
      ensures e.Add? || e.Change? ==>
        disk == CopiedAlone(old(disk), readOnly, Resolve(cwd, e.file), Dests(cwd, outputs, RelativeName(e.file, watchRoot)))
      ensures e.Unlink? ==> disk == UnlinkedAlone(old(disk), readOnly, Dests(cwd, outputs, e.file))
      ensures e.AddDir? ==> disk == MkdirAll(old(disk), readOnly, Dests(cwd, outputs, RelativeName(e.dir, watchRoot)))
      ensures e.UnlinkDir? ==> disk == RmdirAll(old(disk), readOnly, Dests(cwd, outputs, e.dir))
    {
      match e
      case Add(file) => CopyFile(file, watchRoot);
      case Change(file) => CopyFile(file, watchRoot);
      case Unlink(file) => UnlinkFile(file);
      case AddDir(dir) => MkDir(dir, watchRoot);
      case UnlinkDir(dir) => UnlinkDir(dir);
    }

    /** `done()`: the first call schedules the idle notice and sets the flag;
        later calls do nothing. */
    method Done()
      requires Valid()
      modifies this`done, this`notices
      ensures Valid()
      ensures done && notices == 1
      ensures old(done) ==> notices == old(notices)
    {
      if !done {
        notices := notices + 1;
        done := true;
      }
    }

    /** The `ready` handler: in production, or when not watching, the
        process exits; otherwise, once the timer fires, `done()` is called. */
    method OnReady(production: bool) returns (exit: bool)
      requires Valid()
      modifies this`done, this`notices
      ensures Valid()
      ensures exit <==> production || !watch
      ensures exit ==> done == old(done) && notices == old(notices)
      ensures !exit ==> done && notices == 1
    {
      exit := production || !watch;
      if !exit {
        Done();
      }
    }

    /** `run()` up to the watchers: the outputs are replaced by the resolved
        repositories, the clean keys are removed, and one watcher per input
        is set up on the resolved input with its ignore globs. */
    method Run() returns (keys: seq<string>, watchers: seq<Watcher>)
      requires Valid()
      modifies this`outputs, this`disk
      ensures Valid()
      ensures outputs == Repositories(cwd, old(outputs))
      ensures keys == CleanKeys(outputs, inputs)
      ensures disk == CleanedBy(old(disk), ResolveAll(cwd, keys))
      ensures watchers == Watchers(cwd, inputs)
    {
      outputs := SearchForRepositories();
      keys := CleanDirectories();
      watchers := [];
      var j := 0;
      while j < |inputs|
        invariant 0 <= j <= |inputs|
        invariant watchers == Watchers(cwd, inputs[..j])
      {
        var ignored := IgnoredGlobs(inputs[j]);
        watchers := watchers + [Watcher(Resolve(cwd, inputs[j]), ignored)];
        assert inputs[..j + 1][..j] == inputs[..j];
        j := j + 1;
      }
      assert inputs[..j] == inputs;
    }
  }

  /** The corrected removal undoes the copy: after `copyFile` and the
      corrected `unlinkFile` for the same event path, an output that received
      the copy no longer holds it. */
  lemma CorrectedUnlinkRemovesCopy(t: Tree, readOnly: set<Path>, cwd: Path, outputs: seq<string>,
                                   file: string, watchRoot: string, i: nat)
    requires i < |outputs|
    requires CanCopy(t, readOnly, Resolve(cwd, file), DestPath(cwd, outputs[i], RelativeName(file, watchRoot)))
    ensures var dests := Dests(cwd, outputs, RelativeName(file, watchRoot));
      var copied := CopiedAlone(t, readOnly, Resolve(cwd, file), dests);
      var d := DestPath(cwd, outputs[i], RelativeName(file, watchRoot));
      d in copied && d !in UnlinkedAlone(copied, readOnly, dests)
  {
    var dests := Dests(cwd, outputs, RelativeName(file, watchRoot));
    DestsAt(cwd, outputs, RelativeName(file, watchRoot), i);
    assert dests[i] in dests;
  }

  lemma {:induction false} DestsAt(cwd: Path, repos: seq<string>, item: string, i: nat)
    requires i < |repos|
    ensures Dests(cwd, repos, item)[i] == DestPath(cwd, repos[i], item)
    decreases |repos|
  {
    if i < |repos| - 1 {
      DestsAt(cwd, repos[..|repos| - 1], item, i);
    }
  }
}
