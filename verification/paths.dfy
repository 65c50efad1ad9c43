/** Path arithmetic of the sync engine: `path.resolve` on POSIX paths, the
    destination of a mirrored entry (`destPath`), the relative name computed
    for an event under a watch root, and the folder `cleanDirectories`
    removes for an input. */
module Paths {
  import opened Strings

  /** A segment that survives normalisation: not empty, not `.` or `..`, and
      free of the separator. */
  predicate Ordinary(seg: string)
  {
    seg != "" && seg != "." && seg != ".." && '/' !in seg
  }

  /** An absolute path, as the segments below the root `/` (the root itself is
      the empty sequence). */
  type Path = seq<string>

  predicate IsNormal(p: Path)
  {
    forall i :: 0 <= i < |p| ==> Ordinary(p[i])
  }

  predicate SlashFree(segs: seq<string>)
  {
    forall i :: 0 <= i < |segs| ==> '/' !in segs[i]
  }

  /** One segment of normalisation: empty and `.` segments are dropped, `..`
      goes up one level (and stays at the root), anything else goes down. */
  function Step(p: Path, seg: string): Path
  {
    if seg == "" || seg == "." then p
    else if seg == ".." then (if p == [] then [] else p[..|p| - 1])
    else p + [seg]
  }

  /** Normalises `segs` left to right, starting from the directory `base`. */
  function Walk(base: Path, segs: seq<string>): (r: Path)
    ensures IsNormal(base) && SlashFree(segs) ==> IsNormal(r)
    decreases |segs|
  {
    if segs == [] then base
    else
      assert SlashFree(segs) ==> SlashFree(segs[..|segs| - 1]) && '/' !in segs[|segs| - 1];
      Step(Walk(base, segs[..|segs| - 1]), segs[|segs| - 1])
  }

  lemma {:induction false} WalkAppend(base: Path, a: seq<string>, b: seq<string>)
    ensures Walk(base, a + b) == Walk(Walk(base, a), b)
    decreases |b|
  {
    if b == [] {
      assert a + b == a;
    } else {
      assert (a + b)[..|a + b| - 1] == a + b[..|b| - 1];
      WalkAppend(base, a, b[..|b| - 1]);
    }
  }

  /** Segments that are already normal are simply appended. */
  lemma {:induction false} WalkNormal(base: Path, segs: seq<string>)
    requires IsNormal(segs)
    ensures Walk(base, segs) == base + segs
    decreases |segs|
  {
    if segs != [] {
      WalkNormal(base, segs[..|segs| - 1]);
      assert base + segs[..|segs| - 1] + [segs[|segs| - 1]] == base + segs;
    }
  }

  /** `path.resolve(s)` with the process working directory `cwd`: an
      absolute `s` is normalised from the root, a relative one from `cwd`. */
  function Resolve(cwd: Path, s: string): (r: Path)
    ensures IsNormal(cwd) ==> IsNormal(r)
  {
    SplitPiecesAvoid(s, '/');
    Walk(if |s| > 0 && s[0] == '/' then [] else cwd, Split(s, "/"))
  }

  /** The string form of a resolved path, as `path.resolve` returns it. */
  function PathString(p: Path): (s: string)
    ensures |s| > 0 && s[0] == '/'
  {
    "/" + Join(p, "/")
  }

  /** Resolving the string form of a normal path gives the path back, from
      any working directory. */
  lemma ResolvePathString(cwd: Path, p: Path)
    requires IsNormal(p)
    ensures Resolve(cwd, PathString(p)) == p
  {
    var s := PathString(p);
    assert s == "" + ['/'] + Join(p, "/");
    SplitAround("", '/', Join(p, "/"));
    if p == [] {
      assert Join(p, "/") == "";
      assert Split(s, "/") == ["", ""];
      assert ["", ""][..1] == [""];
      assert [""][..0] == [];
    } else {
      SplitJoin(p, '/');
      assert Split(s, "/") == [""] + p;
      WalkAppend([], [""], p);
      WalkNormal([], p);
    }
  }

  /** `path.basename` of a resolved path; the root's basename is empty. */
  function Basename(p: Path): string
  {
    if p == [] then "" else p[|p| - 1]
  }

  /** The last `/`-separated piece of `s` (`x[x.length - 1]` after
      `s.split('/')`). */
  function LastSegment(s: string): (name: string)
    ensures '/' !in name
  {
    var pieces := Split(s, "/");
    SplitPiecesAvoid(s, '/');
    pieces[|pieces| - 1]
  }

  lemma LastSegmentOf(parent: string, name: string)
    requires '/' !in name
    ensures LastSegment(parent + "/" + name) == name
  {
    SplitAround(parent, '/', name);
    SplitWithoutChar(name, '/');
  }

  /** The watch root with its last segment popped: `split('/')`, `pop()`,
      `join('/')`. A root without a slash has the empty parent. */
  function WatchParent(watch: string): string
  {
    var pieces := Split(watch, "/");
    Join(pieces[..|pieces| - 1], "/")
  }

  lemma WatchParentOf(parent: string, name: string)
    requires '/' !in name
    ensures WatchParent(parent + "/" + name) == parent
  {
    SplitAround(parent, '/', name);
    SplitWithoutChar(name, '/');
    JoinSplit(parent, "/");
    var pieces := Split(parent + "/" + name, "/");
    assert pieces[..|pieces| - 1] == Split(parent, "/");
  }

  /** The name an event path is mirrored under: the event path is split on
      the watch root's parent followed by `/`, piece 1 is kept and `../` is
      put in front. When the separator does not occur, piece 1 is JavaScript's
      `undefined`, which the template literal spells out. */
  function RelativeName(file: string, watch: string): (name: string)
    ensures |name| >= 3 && name[..3] == "../"
  {
    var pieces := Split(file, WatchParent(watch) + "/");
    "../" + (if |pieces| > 1 then pieces[1] else "undefined")
  }

  /** An event path below the watch root's parent is mirrored under the rest
      of the path after that parent. */
  lemma RelativeNameUnderParent(parent: string, name: string, rest: string)
    requires '/' !in name
    requires !Contains(rest, parent + "/")
    ensures RelativeName(parent + "/" + rest, parent + "/" + name) == "../" + rest
  {
    WatchParentOf(parent, name);
    assert parent + "/" + rest == (parent + "/") + rest;
    SplitAfterSeparator(parent + "/", rest);
  }

  /** An event path that does not contain the parent's prefix is mirrored
      under the literal name `../undefined`. */
  lemma RelativeNameOutside(file: string, watch: string)
    requires !Contains(file, WatchParent(watch) + "/")
    ensures RelativeName(file, watch) == "../undefined"
  {
    SplitWithoutOccurrence(file, WatchParent(watch) + "/");
  }

  /** `destPath(repo, item)`: `repo/<basename of cwd>/item`, resolved. */
  function DestPath(cwd: Path, repo: string, item: string): (r: Path)
    ensures IsNormal(cwd) ==> IsNormal(r)
  {
    Resolve(cwd, repo + "/" + Basename(cwd) + "/" + item)
  }

  /** The folder `cleanDirectories` removes from `repo` for one input:
      `repo/<last segment of the input>`. */
  function CleanKey(repo: string, input: string): string
  {
    repo + "/" + LastSegment(input)
  }

  /** Resolving `repo/name` for an ordinary `name` goes one level below the
      resolved `repo`. */
  lemma ResolveChild(cwd: Path, repo: string, name: string)
    requires repo != "" && Ordinary(name)
    ensures Resolve(cwd, repo + "/" + name) == Resolve(cwd, repo) + [name]
  {
    SplitAround(repo, '/', name);
    SplitWithoutChar(name, '/');
    var base := if repo[0] == '/' then [] else cwd;
    assert (repo + "/" + name)[0] == repo[0];
    WalkAppend(base, Split(repo, "/"), [name]);
  }

  /** A slash-free first segment splits off on its own. */
  lemma SplitFirst(a: string, rest: string)
    requires '/' !in a
    ensures Split(a + "/" + rest, "/") == [a] + Split(rest, "/")
  {
    assert a + "/" + rest == a + ['/'] + rest;
    SplitAround(a, '/', rest);
    SplitWithoutChar(a, '/');
  }

  lemma SlashAssoc(a: string, b: string, c: string)
    ensures a + "/" + b + "/" + c == a + "/" + (b + "/" + c)
  {
  }

  /** The segments of `repo/b/../rest`. */
  lemma SplitRelative(repo: string, b: string, rest: string)
    requires '/' !in b
    ensures Split(repo + "/" + b + "/" + ("../" + rest), "/") == Split(repo, "/") + [b, ".."] + Split(rest, "/")
  {
    var tail := "../" + rest;
    var segs := Split(rest, "/");
    assert tail == ".." + "/" + rest;
    SplitFirst("..", rest);
    SplitFirst(b, tail);
    SlashAssoc(repo, b, tail);
    SplitAround(repo, '/', b + "/" + tail);
    assert Split(repo, "/") + ([b] + ([".."] + segs)) == Split(repo, "/") + [b, ".."] + segs;
  }

  /** Going down into an ordinary segment and back up is no move at all. */
  lemma WalkDownUp(p: Path, b: string)
    requires Ordinary(b)
    ensures Walk(p, [b, ".."]) == p
  {
    assert [b, ".."][..1] == [b];
    assert [b][..0] == [];
    assert Walk(p, [b]) == p + [b];
    assert (p + [b])[..|p|] == p;
  }

  /** The `..` that starts a relative name cancels the cwd basename that
      `destPath` inserts, as long as the process does not run at the root:
      the destination is the rest of the name resolved below `repo`. */
  lemma DestPathOfRelative(cwd: Path, repo: string, rest: string)
    requires IsNormal(cwd) && cwd != [] && repo != ""
    ensures DestPath(cwd, repo, "../" + rest) == Walk(Resolve(cwd, repo), Split(rest, "/"))
  {
    var b := Basename(cwd);
    assert Ordinary(b);
    var s := repo + "/" + b + "/" + ("../" + rest);
    SplitRelative(repo, b, rest);
    var base := if repo[0] == '/' then [] else cwd;
    assert s[0] == repo[0];
    assert Resolve(cwd, s) == Walk(base, Split(repo, "/") + [b, ".."] + Split(rest, "/"));
    WalkAppend(base, Split(repo, "/") + [b, ".."], Split(rest, "/"));
    WalkAppend(base, Split(repo, "/"), [b, ".."]);
    WalkDownUp(Resolve(cwd, repo), b);
  }

  /** A file below the watch root `parent/name` is copied to the folder that
      `cleanDirectories` removes for that input, at the file's path below the
      root. */
  lemma CopyDestUnderCleanKey(cwd: Path, repo: string, parent: string, name: string, sub: string)
    requires IsNormal(cwd) && cwd != [] && repo != ""
    requires Ordinary(name) && IsNormal(Split(sub, "/"))
    requires !Contains(name + "/" + sub, parent + "/")
    ensures DestPath(cwd, repo, RelativeName(parent + "/" + name + "/" + sub, parent + "/" + name))
         == Resolve(cwd, CleanKey(repo, parent + "/" + name)) + Split(sub, "/")
  {
    var rest := name + "/" + sub;
    assert parent + "/" + name + "/" + sub == parent + "/" + rest;
    RelativeNameUnderParent(parent, name, rest);
    DestPathOfRelative(cwd, repo, rest);
    SplitAround(name, '/', sub);
    SplitWithoutChar(name, '/');
    WalkAppend(Resolve(cwd, repo), [name], Split(sub, "/"));
    WalkNormal(Resolve(cwd, repo) + [name], Split(sub, "/"));
    LastSegmentOf(parent, name);
    ResolveChild(cwd, repo, name);
  }

  /** The directory event for the watch root itself creates exactly the
      folder that `cleanDirectories` removes for that input. */
  lemma WatchRootDestIsCleanKey(cwd: Path, repo: string, parent: string, name: string)
    requires IsNormal(cwd) && cwd != [] && repo != ""
    requires Ordinary(name) && !Contains(name, parent + "/")
    ensures DestPath(cwd, repo, RelativeName(parent + "/" + name, parent + "/" + name))
         == Resolve(cwd, CleanKey(repo, parent + "/" + name))
  {
    RelativeNameUnderParent(parent, name, name);
    DestPathOfRelative(cwd, repo, name);
    SplitWithoutChar(name, '/');
    LastSegmentOf(parent, name);
    ResolveChild(cwd, repo, name);
  }

  /** The segments of `q/name/sub` for slash-free `q` and `name`. */
  lemma SplitTwoSegments(q: string, name: string, sub: string)
    requires '/' !in q && '/' !in name
    ensures Split(q + "/" + name + "/" + sub, "/") == [q, name] + Split(sub, "/")
  {
    SlashAssoc(q, name, sub);
    SplitFirst(name, sub);
    SplitFirst(q, name + "/" + sub);
    assert [q] + ([name] + Split(sub, "/")) == [q, name] + Split(sub, "/");
  }

  lemma Reassociate(q: string, name: string, sub: string)
    ensures "../" + q + "/" + name + "/" + sub == "../" + (q + "/" + name + "/" + sub)
  {
  }

  /** `q/name/sub` walks down `q`, then `name`, then the segments of `sub`. */
  lemma WalkTwoSegments(r: Path, q: string, name: string, sub: string)
    requires Ordinary(q) && Ordinary(name) && IsNormal(Split(sub, "/"))
    ensures Walk(r, Split(q + "/" + name + "/" + sub, "/")) == r + [q, name] + Split(sub, "/")
  {
    var segs := [q, name] + Split(sub, "/");
    SplitTwoSegments(q, name, sub);
    assert IsNormal(segs) by {
      forall i | 0 <= i < |segs| ensures Ordinary(segs[i]) {
        if i >= 2 { assert segs[i] == Split(sub, "/")[i - 2]; }
      }
    }
    WalkNormal(r, segs);
  }

  /** The target `unlinkFile` and `unlinkDir` compute from the raw event path
      `../q/name/sub`: that path resolved below `repo`. */
  lemma RawRemovalTarget(cwd: Path, repo: string, q: string, name: string, sub: string)
    requires IsNormal(cwd) && cwd != [] && repo != ""
    requires Ordinary(q) && Ordinary(name) && IsNormal(Split(sub, "/"))
    ensures DestPath(cwd, repo, "../" + (q + "/" + name + "/" + sub))
         == Resolve(cwd, repo) + [q, name] + Split(sub, "/")
  {
    DestPathOfRelative(cwd, repo, q + "/" + name + "/" + sub);
    WalkTwoSegments(Resolve(cwd, repo), q, name, sub);
  }

  /** For a watch root `../q/name` (a sibling tree of the working directory,
      one level down), the raw event path keeps `q` in the removal target, so
      removal aims one level deeper than the copy was written. */
  lemma RemovalTargetMissesCopy(cwd: Path, repo: string, q: string, name: string, sub: string)
    requires IsNormal(cwd) && cwd != [] && repo != ""
    requires Ordinary(q) && Ordinary(name) && IsNormal(Split(sub, "/"))
    requires !Contains(name + "/" + sub, "../" + q + "/")
    ensures DestPath(cwd, repo, "../" + q + "/" + name + "/" + sub)
         != DestPath(cwd, repo, RelativeName("../" + q + "/" + name + "/" + sub, "../" + q + "/" + name))
  {
    var file := "../" + q + "/" + name + "/" + sub;
    Reassociate(q, name, sub);
    RawRemovalTarget(cwd, repo, q, name, sub);
    CopyDestUnderCleanKey(cwd, repo, "../" + q, name, sub);
    ResolveChild(cwd, repo, name);
    LastSegmentOf("../" + q, name);
    var raw := Resolve(cwd, repo) + [q, name] + Split(sub, "/");
    var copied := Resolve(cwd, repo) + [name] + Split(sub, "/");
    assert |raw| != |copied|;
  }

  /** The patterns every watcher excludes: dot files at any depth, the
      `sync.js` script and `node_modules`, each anchored at the watch root. */
  function IgnoredGlobs(watch: string): (globs: seq<string>)
    ensures |globs| == 3
    ensures forall i :: 0 <= i < 3 ==> |globs[i]| > |watch| + 1 && globs[i][..|watch| + 1] == watch + "/"
  {
    [watch + "/**/.*", watch + "/sync.js", watch + "/node_modules"]
  }
}
