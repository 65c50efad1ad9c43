/** The file system the handlers act on, as a map from resolved paths to
    entries, and the synchronous `fs` and `rimraf` calls they make. A call
    that throws is `None`. Which calls throw follows POSIX: a missing parent
    directory, a directory where a file is expected (or the reverse), a
    directory that is not empty, and any write below a read-only location. */
module Disk {
  import opened Paths

  datatype Option<T> = None | Some(value: T)

  datatype Entry = File(content: string) | Dir

  /** Every existing path below the root, with what it holds. The root `[]`
      is always a directory and is never a key. */
  type Tree = map<Path, Entry>

  function Parent(p: Path): Path
    requires p != []
  {
    p[..|p| - 1]
  }

  /** `fs.existsSync`. */
  predicate Exists(t: Tree, p: Path)
  {
    p == [] || p in t
  }

  predicate IsDir(t: Tree, p: Path)
  {
    p == [] || (p in t && t[p].Dir?)
  }

  predicate IsFile(t: Tree, p: Path)
  {
    p in t && t[p].File?
  }

  /** Every entry sits in a directory. */
  predicate WellFormed(t: Tree)
  {
    forall p :: p in t ==> p != [] && IsDir(t, Parent(p))
  }

  /** `p` lies at or below one of the read-only locations. */
  predicate Locked(readOnly: set<Path>, p: Path)
  {
    exists q :: q in readOnly && q <= p
  }

  /** Some entry lies strictly below `d`. */
  predicate HasEntriesBelow(t: Tree, d: Path)
  {
    exists p :: p in t && d < p
  }

  predicate CanCopy(t: Tree, readOnly: set<Path>, src: Path, dest: Path)
  {
    IsFile(t, src) && dest != [] && !IsDir(t, dest) && IsDir(t, Parent(dest)) && !Locked(readOnly, dest)
  }

  /** `fs.copyFileSync(src, dest)`: the source must be a file, the
      destination must not be a directory and its parent must be one. */
  function CopyFileSync(t: Tree, readOnly: set<Path>, src: Path, dest: Path): (r: Option<Tree>)
    ensures r.Some? <==> CanCopy(t, readOnly, src, dest)
    ensures r.Some? ==> r.value.Keys == t.Keys + {dest} && r.value[dest] == t[src]
    ensures r.Some? ==> forall p :: p in t && p != dest ==> r.value[p] == t[p]
    ensures r.Some? && WellFormed(t) ==> WellFormed(r.value)
  {
    if CanCopy(t, readOnly, src, dest) then Some(t[dest := t[src]]) else None
  }

  predicate CanUnlink(t: Tree, readOnly: set<Path>, p: Path)
  {
    IsFile(t, p) && !Locked(readOnly, p)
  }

  /** `fs.unlinkSync(p)`: only a file can be unlinked. */
  function UnlinkSync(t: Tree, readOnly: set<Path>, p: Path): (r: Option<Tree>)
    ensures r.Some? <==> CanUnlink(t, readOnly, p)
    ensures r.Some? ==> r.value.Keys == t.Keys - {p} && forall q :: q in r.value ==> r.value[q] == t[q]
    ensures r.Some? && WellFormed(t) ==> WellFormed(r.value)
  {
    if CanUnlink(t, readOnly, p) then Some(t - {p}) else None
  }

  predicate CanMkdir(t: Tree, readOnly: set<Path>, p: Path)
  {
    !Exists(t, p) && IsDir(t, Parent(p)) && !Locked(readOnly, p)
  }

  /** `fs.mkdirSync(p)`, not recursive: the parent must be a directory. */
  function MkdirSync(t: Tree, readOnly: set<Path>, p: Path): (r: Option<Tree>)
    ensures r.Some? <==> CanMkdir(t, readOnly, p)
    ensures r.Some? ==> r.value.Keys == t.Keys + {p} && r.value[p] == Dir
    ensures r.Some? ==> forall q :: q in t ==> r.value[q] == t[q]
    ensures r.Some? && WellFormed(t) ==> WellFormed(r.value)
  {
    if CanMkdir(t, readOnly, p) then Some(t[p := Dir]) else None
  }

  predicate CanRmdir(t: Tree, readOnly: set<Path>, p: Path)
  {
    p in t && t[p].Dir? && !HasEntriesBelow(t, p) && !Locked(readOnly, p)
  }

  /** `fs.rmdirSync(p)`: only an empty directory can be removed. */
  function RmdirSync(t: Tree, readOnly: set<Path>, p: Path): (r: Option<Tree>)
    ensures r.Some? <==> CanRmdir(t, readOnly, p)
    ensures r.Some? ==> r.value.Keys == t.Keys - {p} && forall q :: q in r.value ==> r.value[q] == t[q]
    ensures r.Some? && WellFormed(t) ==> WellFormed(r.value)
  {
    if CanRmdir(t, readOnly, p) then Some(t - {p}) else None
  }

  /** `rimraf.sync(p)`: `p` and everything below it are gone, the rest is
      kept; a missing `p` is not an error. */
  function Rimraf(t: Tree, p: Path): (r: Tree)
    ensures forall q :: q in r <==> q in t && !(p <= q)
    ensures forall q :: q in r ==> r[q] == t[q]
    ensures WellFormed(t) ==> WellFormed(r)
  {
    var r := map q | q in t && !(p <= q) :: t[q];
    assert WellFormed(t) ==> WellFormed(r) by {
      if WellFormed(t) {
        forall q | q in r ensures q != [] && IsDir(r, Parent(q)) {
          assert Parent(q) <= q;
        }
      }
    }
    r
  }

  /** `fs.readFileSync(p)`: the content of a file; throws for a directory or
      a missing path. */
  function ReadFileSync(t: Tree, p: Path): (r: Option<string>)
    ensures r.Some? <==> IsFile(t, p)
    ensures r.Some? ==> t[p] == File(r.value)
  {
    if IsFile(t, p) then Some(t[p].content) else None
  }
}
