/**
  The filesystem the handlers in code-server/file-server.js act on, seen as a
  map from normalized absolute paths to nodes, and the few `fs.promises`
  operations they call (`mkdir` with `recursive`, `writeFile`, `readFile`,
  `stat`, `rm` with `recursive`, `unlink`, `readdir`) as functions on it.
  These follow the usual POSIX behaviour Node reports; they are assumptions
  about the store, not code of the server.
*/
module FileSystem {
  import opened Wrappers
  import opened Paths

  datatype Node = File(content: string) | Dir

  type Tree = map<Path, Node>

  datatype Errno = ENOENT | ENOTDIR | EISDIR | EEXIST

  /** The `message` of the Error Node throws: code, description, system call and path. */
  function Message(e: Errno, syscall: string, path: string): string {
    var text := match e
      case ENOENT => "ENOENT: no such file or directory"
      case ENOTDIR => "ENOTDIR: not a directory"
      case EISDIR => "EISDIR: illegal operation on a directory"
      case EEXIST => "EEXIST: file already exists";
    text + ", " + syscall + " '" + path + "'"
  }

  /**
    Node checks a path argument before making the system call: one holding a
    NUL character is refused (code ERR_INVALID_ARG_VALUE) and nothing happens.
  */
  predicate HasNul(path: string) {
    '\0' in path
  }

  /** The fixed part of the `message` of that refusal. */
  const NUL_REFUSAL := "The argument 'path' must be a string, Uint8Array, or URL without null bytes."

  /** The `message` of that refusal, naming the path. */
  function NulMessage(path: string): string {
    NUL_REFUSAL + " Received '" + path + "'"
  }

  /**
    A tree: the root is a directory, every key is normalized, and the parent
    of every other key is a directory in the tree.
  */
  ghost predicate WellFormed(t: Tree) {
    && [] in t && t[[]] == Dir
    && (forall k :: k in t ==> Normal(k))
    && (forall k :: k in t && k != [] ==> Parent(k) in t && t[Parent(k)] == Dir)
  }

  predicate IsDir(t: Tree, k: Path) {
    k in t && t[k].Dir?
  }

  /** `k` and every ancestor of it are directories of `t`. */
  ghost predicate DirsAlong(t: Tree, k: Path) {
    forall i :: 0 <= i <= |k| ==> IsDir(t, k[..i])
  }

  /** No ancestor of `k`, nor `k` itself, is a file of `t`. */
  ghost predicate NoFileAlong(t: Tree, k: Path) {
    forall i :: 0 <= i <= |k| && k[..i] in t ==> t[k[..i]].Dir?
  }

  /**
    Why a lookup of the missing `k` fails: ENOTDIR when its deepest existing
    ancestor is a file, ENOENT when that ancestor is a directory.
  */
  function Missing(t: Tree, k: Path): Errno
    decreases |k|
  {
    if k == [] then ENOENT
    else if Parent(k) in t then (if t[Parent(k)].File? then ENOTDIR else ENOENT)
    else Missing(t, Parent(k))
  }

  /** `fs.mkdir(k, { recursive: true })`: creates each missing directory from the top down. */
  function MakeDirs(t: Tree, k: Path): Result<Tree, Errno>
    decreases |k|
  {
    if k in t then (if t[k].Dir? then Ok(t) else Err(EEXIST))
    else if k == [] then Ok(t[k := Dir])
    else match MakeDirs(t, Parent(k))
      case Err(_) => Err(ENOTDIR)
      case Ok(t1) => Ok(t1[k := Dir])
  }

  /** `fs.writeFile(k, body)`: creates or truncates a file whose parent is a directory. */
  function WriteAt(t: Tree, k: Path, body: string): Result<Tree, Errno> {
    if k in t then (if t[k].Dir? then Err(EISDIR) else Ok(t[k := File(body)]))
    else if k != [] && IsDir(t, Parent(k)) then Ok(t[k := File(body)])
    else Err(Missing(t, k))
  }

  /** `fs.readFile(k)`. */
  function ReadAt(t: Tree, k: Path): Result<string, Errno> {
    if k !in t then Err(Missing(t, k))
    else if t[k].Dir? then Err(EISDIR)
    else Ok(t[k].content)
  }

  /** `fs.stat(k)`. */
  function Stat(t: Tree, k: Path): Result<Node, Errno> {
    if k in t then Ok(t[k]) else Err(Missing(t, k))
  }

  /** `fs.rm(k, { recursive: true })`: drops `k` and everything beneath it. */
  function RemoveTree(t: Tree, k: Path): Tree {
    map x | x in t && !(k <= x) :: t[x]
  }

  /** `fs.unlink(k)`. */
  function Unlink(t: Tree, k: Path): Tree {
    t - {k}
  }

  /** The names `readdir(k)` reports. */
  function ChildNames(t: Tree, k: Path): set<string> {
    set x | x in t && |x| == |k| + 1 && k <= x :: x[|k|]
  }

  // ---------------------------------------------------------------------------

  /** In a tree, every ancestor of a key is a directory. */
  lemma {:induction false} Ancestors(t: Tree, k: Path)
    requires WellFormed(t) && k in t
    ensures forall i :: 0 <= i < |k| ==> IsDir(t, k[..i])
    decreases |k|
  {
    if k != [] {
      var p := Parent(k);
      Ancestors(t, p);
      forall i | 0 <= i < |k| ensures IsDir(t, k[..i]) {
        if i < |p| { assert k[..i] == p[..i]; } else { assert k[..i] == p; }
      }
    }
  }

  lemma ParentNormal(k: Path)
    requires Normal(k) && k != []
    ensures Normal(Parent(k))
  {
    forall i | 0 <= i < |Parent(k)| ensures IsSegment(Parent(k)[i]) { assert Parent(k)[i] == k[i]; }
  }

  lemma ChildKey(t: Tree, k: Path, n: string)
    requires n in ChildNames(t, k)
    ensures k + [n] in t
  {
    var x :| x in t && |x| == |k| + 1 && k <= x && x[|k|] == n;
    assert x == k + [n];
  }

  /** A name is listed under `k` exactly when `k` followed by it is a key. */
  lemma ChildNamesExactly(t: Tree, k: Path, n: string)
    ensures n in ChildNames(t, k) <==> k + [n] in t
  {
    if n in ChildNames(t, k) {
      ChildKey(t, k, n);
    }
    if k + [n] in t {
      var x := k + [n];
      assert |x| == |k| + 1 && k <= x && x[|k|] == n;
    }
  }

  /** A missing key is never reported as a directory or an existing file. */
  lemma {:induction false} MissingCode(t: Tree, k: Path)
    ensures Missing(t, k) == ENOENT || Missing(t, k) == ENOTDIR
    ensures k != [] && IsDir(t, Parent(k)) ==> Missing(t, k) == ENOENT
    ensures k != [] && Parent(k) in t && t[Parent(k)].File? ==> Missing(t, k) == ENOTDIR
    decreases |k|
  {
    if k != [] && Parent(k) !in t {
      MissingCode(t, Parent(k));
    }
  }

  lemma StepDown(k: Path)
    ensures k != [] ==> forall i :: 0 <= i < |k| ==> k[..i] == Parent(k)[..i]
    ensures k[..|k|] == k
  {
  }

  /** Adding `k` as a directory under the directory `Parent(k)` keeps a tree well formed. */
  lemma AddDir(t: Tree, k: Path)
    requires WellFormed(t) && Normal(k) && k != [] && IsDir(t, Parent(k))
    ensures WellFormed(t[k := Dir])
  {
  }

  /** In a tree, no file lies along a directory. */
  lemma NoFileAlongDir(t: Tree, k: Path)
    requires WellFormed(t) && IsDir(t, k)
    ensures NoFileAlong(t, k)
  {
    Ancestors(t, k);
    StepDown(k);
  }

  /** No file lies along `k` when none lies along its parent and `k` itself is not a file. */
  lemma NoFileAlongStep(t: Tree, k: Path)
    requires k != []
    ensures NoFileAlong(t, k) <==> NoFileAlong(t, Parent(k)) && (k in t ==> t[k].Dir?)
  {
    StepDown(k);
    var p := Parent(k);
    assert p[..|p|] == p;
    if NoFileAlong(t, p) && (k in t ==> t[k].Dir?) {
      forall i | 0 <= i <= |k| && k[..i] in t ensures t[k[..i]].Dir? {
        if i < |k| { assert k[..i] == p[..i]; }
      }
    }
    if NoFileAlong(t, k) {
      forall i | 0 <= i <= |p| && p[..i] in t ensures t[p[..i]].Dir? {
        assert k[..i] == p[..i];
      }
    }
  }

  /**
    `mkdir -p` succeeds exactly when no ancestor of `k`, nor `k` itself, is a
    file; it fails with EEXIST when `k` is a file and with ENOTDIR when an
    ancestor is. An existing directory is left as it is.
  */
  lemma {:induction false} MakeDirsOutcome(t: Tree, k: Path)
    requires WellFormed(t)
    ensures var r := MakeDirs(t, k);
            && (r.Ok? <==> NoFileAlong(t, k))
            && (r.Err? ==> r.error == (if k in t then EEXIST else ENOTDIR))
            && (IsDir(t, k) ==> r == Ok(t))
    decreases |k|
  {
    if k in t {
      if t[k].Dir? {
        NoFileAlongDir(t, k);
      } else {
        assert k[..|k|] == k;
      }
    } else {
      MakeDirsOutcome(t, Parent(k));
      NoFileAlongStep(t, k);
    }
  }

  lemma DirsAlongDir(t: Tree, k: Path)
    requires WellFormed(t) && IsDir(t, k)
    ensures DirsAlong(t, k)
  {
    Ancestors(t, k);
    StepDown(k);
  }

  lemma DirsAlongAdd(t: Tree, k: Path)
    requires k != [] && DirsAlong(t, Parent(k))
    ensures DirsAlong(t[k := Dir], k)
  {
    StepDown(k);
    var p := Parent(k);
    forall i | 0 <= i <= |k| ensures IsDir(t[k := Dir], k[..i]) {
      if i < |k| { assert k[..i] == p[..i]; assert IsDir(t, p[..i]); }
    }
  }

  /**
    After a successful `mkdir -p` of `k`, the tree is still well formed, `k`
    and all its ancestors are directories, every existing entry is kept as
    it was, and the only new entries are `k` and its ancestors.
  */
  lemma {:induction false} MakeDirsEffect(t: Tree, k: Path)
    requires WellFormed(t) && Normal(k) && MakeDirs(t, k).Ok?
    ensures var t1 := MakeDirs(t, k).value;
            && WellFormed(t1)
            && DirsAlong(t1, k)
            && (forall x :: x in t ==> x in t1 && t1[x] == t[x])
            && (forall x :: x in t1 ==> x in t || x <= k)
    decreases |k|
  {
    if k in t {
      DirsAlongDir(t, k);
    } else {
      var p := Parent(k);
      ParentNormal(k);
      MakeDirsEffect(t, p);
      var t1 := MakeDirs(t, p).value;
      assert DirsAlong(t1, p);
      DirsAlongAdd(t1, k);
      assert IsDir(t1, p) by { assert p[..|p|] == p; }
      AddDir(t1, k);
      assert p <= k;
    }
  }

  /**
    `writeFile` succeeds exactly when `k` is not a directory and its parent
    is one; it then keeps the tree well formed, and reading `k` back returns
    what was written while every other entry stays as it was.
  */
  lemma WriteAtSpec(t: Tree, k: Path, body: string)
    requires WellFormed(t) && Normal(k)
    ensures WriteAt(t, k, body).Ok? <==> k != [] && !IsDir(t, k) && IsDir(t, Parent(k))
    ensures WriteAt(t, k, body).Err? && IsDir(t, k) ==> WriteAt(t, k, body).error == EISDIR
    ensures WriteAt(t, k, body).Ok? ==>
              var t1 := WriteAt(t, k, body).value;
              && WellFormed(t1)
              && ReadAt(t1, k) == Ok(body)
              && (forall x :: x in t1 && x != k ==> x in t && t1[x] == t[x])
              && (forall x :: x in t ==> x in t1)
  {
    if k in t && t[k].File? && k != [] {
      assert IsDir(t, Parent(k));
    }
  }

  /**
    The write handler's sequence, `mkdir -p` of the parent and then
    `writeFile`, succeeds exactly when no ancestor of `k` is a file and `k`
    is not a directory; afterwards all ancestors of `k` are directories and
    `k` holds the body.
  */
  lemma WriteSequence(t: Tree, k: Path, body: string)
    requires WellFormed(t) && Normal(k) && k != []
    ensures var m := MakeDirs(t, Parent(k));
            (m.Ok? && WriteAt(m.value, k, body).Ok?) <==> NoFileAlong(t, Parent(k)) && !IsDir(t, k)
    ensures var m := MakeDirs(t, Parent(k));
            m.Ok? && WriteAt(m.value, k, body).Ok? ==>
              var t2 := WriteAt(m.value, k, body).value;
              WellFormed(t2) && ReadAt(t2, k) == Ok(body) && DirsAlong(t2, Parent(k))
  {
    var p := Parent(k);
    ParentNormal(k);
    MakeDirsOutcome(t, p);
    if MakeDirs(t, p).Ok? {
      var t1 := MakeDirs(t, p).value;
      MakeDirsEffect(t, p);
      assert IsDir(t1, p) by { assert p[..|p|] == p; }
      WriteAtSpec(t1, k, body);
      if WriteAt(t1, k, body).Ok? {
        var t2 := WriteAt(t1, k, body).value;
        forall i | 0 <= i <= |p| ensures IsDir(t2, p[..i]) {
          assert IsDir(t1, p[..i]);
          assert p[..i] != k;
        }
      }
    }
  }

  /**
    `rm -r` of a directory other than the root removes `k` and every path
    beneath it, keeps all other entries as they were, keeps the tree well
    formed, and leaves the name of `k` out of its parent's listing.
  */
  lemma RemoveTreeSpec(t: Tree, k: Path)
    requires WellFormed(t) && k != []
    ensures var t1 := RemoveTree(t, k);
            && WellFormed(t1)
            && (forall x :: x in t1 <==> x in t && !(k <= x))
            && (forall x :: x in t1 ==> t1[x] == t[x])
            && k[|k| - 1] !in ChildNames(t1, Parent(k))
  {
    var t1 := RemoveTree(t, k);
    ChildNamesExactly(t1, Parent(k), k[|k| - 1]);
    assert Parent(k) + [k[|k| - 1]] == k;
  }

  /**
    `unlink` of a file removes exactly that entry, keeps the tree well
    formed, and leaves its name out of its parent's listing.
  */
  lemma UnlinkSpec(t: Tree, k: Path)
    requires WellFormed(t) && k in t && t[k].File?
    ensures var t1 := Unlink(t, k);
            && WellFormed(t1)
            && (forall x :: x in t1 <==> x in t && x != k)
            && (forall x :: x in t1 ==> t1[x] == t[x])
            && k != [] && k[|k| - 1] !in ChildNames(t1, Parent(k))
  {
    var t1 := Unlink(t, k);
    ChildNamesExactly(t1, Parent(k), k[|k| - 1]);
    assert Parent(k) + [k[|k| - 1]] == k;
  }

  /** `readFile` answers with the content of a file and fails for a directory or a missing path. */
  lemma ReadAtSpec(t: Tree, k: Path)
    ensures ReadAt(t, k).Ok? <==> k in t && t[k].File?
    ensures ReadAt(t, k).Ok? ==> t[k] == File(ReadAt(t, k).value)
    ensures IsDir(t, k) ==> ReadAt(t, k) == Err(EISDIR)
    ensures k !in t ==> ReadAt(t, k).Err? && ReadAt(t, k).error in {ENOENT, ENOTDIR}
  {
    if k !in t { MissingCode(t, k); }
  }
}
