/** The host filesystem as the cleaning engine sees it: a finite map from
    absolute paths to nodes, the two failure sources the engine propagates,
    the removal primitive `remove_dir_all`, and the disk usage of a set of
    entries. */
module Fs {

  /** One path component, e.g. "target". */
  type Name = string

  /** An absolute path as its sequence of components; [] is the root "/".
      `path.join(rel)` is concatenation and "p lies under q" is `q <= p`. */
  type Path = seq<Name>

  /** What a path names. A symbolic link is a leaf carrying the size of the
      link entry itself; its target is not modelled. */
  datatype Node = File(size: nat) | Symlink(size: nat) | Dir

  type Entries = map<Path, Node>

  /** The crate's error enum (src/lib.rs). `Cwd` is declared there and
      constructed nowhere in the crate. */
  datatype Error = Cwd | FileSystem | Walkdir

  /** `crate::Result<T>`, usable with `:-` the way the source uses `?`. */
  datatype Result<T> = Ok(value: T) | Err(error: Error) {
    predicate IsFailure() { Err? }

    function PropagateFailure<U>(): Result<U>
      requires Err?
    {
      Err(error)
    }

    function Extract(): T
      requires Ok?
    {
      value
    }
  }

  /** Where the operating system refuses service: walking or reading the
      metadata of an `unreadable` entry fails, and removing a subtree that
      holds an `undeletable` entry fails. */
  datatype Faults = Faults(unreadable: set<Path>, undeletable: set<Path>)

  /** `path.is_dir()` */
  predicate IsDir(e: Entries, p: Path) {
    p in e && e[p].Dir?
  }

  /** A tree: every proper prefix of a present path is a directory. */
  ghost predicate WellFormed(e: Entries) {
    forall p, k :: p in e && 0 <= k < |p| ==> IsDir(e, p[..k])
  }

  /** `e1` arises from `e0` by deleting entries only: nothing is created and
      no surviving node changes. */
  ghost predicate Shrinks(e0: Entries, e1: Entries) {
    forall p :: p in e1 ==> p in e0 && e1[p] == e0[p]
  }

  /** Every entry under `target` (itself included) deleted, nothing else
      touched. */
  function RemoveTree(e: Entries, target: Path): (r: Entries)
    ensures forall p :: p in r <==> p in e && !(target <= p)
    ensures Shrinks(e, r)
  {
    map p | p in e && !(target <= p) :: e[p]
  }

  /** Whether `std::fs::remove_dir_all(target)` succeeds: the target must
      exist, must not be a regular file (the primitive refuses a non-directory
      root unless it is a symbolic link, which it unlinks), and nothing in the
      subtree may refuse deletion. */
  predicate CanRemove(e: Entries, f: Faults, target: Path) {
    && target in e
    && !e[target].File?
    && !exists p :: p in e && target <= p && p in f.undeletable
  }

  lemma {:induction false} RemoveTreeKeepsWellFormed(e: Entries, target: Path)
    requires WellFormed(e)
    ensures WellFormed(RemoveTree(e, target))
  {
  }

  /** On a tree every proper prefix of a present path is a directory, so
      nothing lies below a path that is missing, a file or a link. */
  lemma {:induction false} AncestorIsDirectory(e: Entries, p: Path, q: Path)
    requires WellFormed(e)
    requires p < q
    ensures q in e ==> IsDir(e, p)
  {
    if q in e {
      assert q[..|p|] == p;
    }
  }

  lemma {:induction false} ShrinksTransitive(e0: Entries, e1: Entries, e2: Entries)
    requires Shrinks(e0, e1) && Shrinks(e1, e2)
    ensures Shrinks(e0, e2)
  {
  }

  /** The mutable host filesystem. */
  class FileTree {
    var entries: Entries
    const faults: Faults

    ghost predicate Valid()
      reads this
    {
      WellFormed(entries)
    }

    constructor (entries: Entries, faults: Faults)
      requires WellFormed(entries)
      ensures Valid()
      ensures this.entries == entries && this.faults == faults
    {
      this.entries := entries;
      this.faults := faults;
    }

    /** `fs::remove_dir_all(target)`. A failed removal leaves the tree as it
        was. */
    method RemoveDirAll(target: Path) returns (r: Result<()>)
      requires Valid()
      modifies this
      ensures Valid()
      ensures r.Ok? <==> CanRemove(old(entries), faults, target)
      ensures r.Ok? ==> entries == RemoveTree(old(entries), target)
      ensures r.Err? ==> r.error == FileSystem && entries == old(entries)
    {
      if CanRemove(entries, faults, target) {
        RemoveTreeKeepsWellFormed(entries, target);
        entries := RemoveTree(entries, target);
        r := Ok(());
      } else {
        r := Err(FileSystem);
      }
    }
  }

  // ----- disk usage -----

  /** What one entry contributes to a directory's size: files and symbolic
      links their own size, directories nothing. */
  function NodeSize(n: Node): nat {
    match n
    case File(size) => size
    case Symlink(size) => size
    case Dir => 0
  }

  function SizeAt(e: Entries, p: Path): nat {
    if p in e then NodeSize(e[p]) else 0
  }

  /** Sum of `SizeAt` over a finite set of paths, in no particular order. */
  ghost function SizeSum(e: Entries, s: set<Path>): nat
    decreases s
  {
    if s == {} then 0
    else
      var p :| p in s;
      SizeAt(e, p) + SizeSum(e, s - {p})
  }

  /** The entries a `WalkDir` rooted at `dir` yields: `dir` and everything
      below it. */
  function Subtree(e: Entries, dir: Path): (s: set<Path>)
    ensures forall p :: p in s <==> p in e && dir <= p
  {
    set p | p in e && dir <= p
  }

  /** The sum does not depend on the order in which elements are taken. */
  lemma {:induction false} SizeSumRemove(e: Entries, s: set<Path>, p: Path)
    requires p in s
    ensures SizeSum(e, s) == SizeAt(e, p) + SizeSum(e, s - {p})
    decreases s
  {
    var q :| q in s && SizeSum(e, s) == SizeAt(e, q) + SizeSum(e, s - {q});
    if q != p {
      SizeSumRemove(e, s - {q}, p);
      SizeSumRemove(e, s - {p}, q);
      assert s - {q} - {p} == s - {p} - {q};
    }
  }

  /** Sizes add up over disjoint sets. */
  lemma {:induction false} SizeSumUnion(e: Entries, a: set<Path>, b: set<Path>)
    requires a !! b
    ensures SizeSum(e, a + b) == SizeSum(e, a) + SizeSum(e, b)
    decreases a
  {
    if a != {} {
      var p :| p in a;
      SizeSumRemove(e, a, p);
      SizeSumRemove(e, a + b, p);
      assert (a + b) - {p} == (a - {p}) + b;
      SizeSumUnion(e, a - {p}, b);
    } else {
      assert a + b == b;
    }
  }

  /** A set of entries weighs at most as much as any superset. */
  lemma {:induction false} SizeSumSubset(e: Entries, a: set<Path>, b: set<Path>)
    requires a <= b
    ensures SizeSum(e, a) <= SizeSum(e, b)
  {
    SizeSumUnion(e, a, b - a);
    assert a + (b - a) == b;
  }

  /** Entries that weigh nothing add nothing. */
  lemma {:induction false} SizeSumOfZeroes(e: Entries, z: set<Path>)
    requires forall p :: p in z ==> SizeAt(e, p) == 0
    ensures SizeSum(e, z) == 0
    decreases z
  {
    if z != {} {
      var p :| p in z;
      SizeSumRemove(e, z, p);
      SizeSumOfZeroes(e, z - {p});
    }
  }
}
