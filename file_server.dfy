/**
  The file endpoints of code-server/file-server.js over a sequential store.
  Each handler first passes the client path through `safePath`, so a
  rejected path is answered with status 400 before the store is touched;
  then it performs the awaited filesystem calls in order, and any error they
  throw becomes a 400 response carrying its message. Node refuses a path
  holding a NUL character at the call itself, before the system sees it.
*/
module FileServer {
  import opened Wrappers
  import opened Paths
  import opened SafePaths
  import opened Listing
  import opened Http
  import opened FileSystem

  /** The store key of an accepted path: its segments. */
  function Target(p: Param): Path
    requires SafePath(p).Ok?
  {
    Components(SafePath(p).value)
  }

  /**
    An accepted path is the rendering of its key, which lies at least three
    segments deep, and `path.dirname` of it is the rendering of the key's parent.
  */
  lemma SafeKey(p: Param)
    requires SafePath(p).Ok?
    ensures var fp := SafePath(p).value;
            var k := Target(p);
            && |k| >= 3 && Normal(k) && Render(k) == fp
            && Dirname(fp) == Render(Parent(k))
            && Components(Dirname(fp)) == Parent(k)
  {
    var k := Target(p);
    AcceptedExactly(k);
    DirnameRender(k);
    ParentNormal(k);
    ComponentsRender(Parent(k));
  }

  /**
    An accepted path without a NUL character: the only kind Node passes on to
    a system call.
  */
  predicate Reaches(p: Param) {
    SafePath(p).Ok? && !HasNul(SafePath(p).value)
  }

  /** A missing path reaches the filesystem as the workspace root. */
  lemma AbsentIsBase()
    ensures Reaches(Absent) && Target(Absent) == BASE_SEGMENTS
  {
    EmptyIsBase();
    BaseRendered();
    BaseWithoutNul();
  }

  lemma BaseWithoutNul()
    ensures !HasNul(BASE)
  {
    forall i | 0 <= i < |BASE| ensures BASE[i] != '\0' {
    }
  }

  /** `es` is what `readdir(k, { withFileTypes: true })` may report: each child of `k` once, in some order. */
  ghost predicate Lists(t: Tree, k: Path, es: seq<Entry>) {
    && DistinctNames(es)
    && (forall e :: e in es <==> k + [e.name] in t && e.isDirectory == IsDir(t, k + [e.name]))
  }

  /** What the `readdir` loop keeps: the entries so far are the children already taken from `todo`, each once. */
  ghost predicate Gathered(t: Tree, k: Path, names: set<string>, todo: set<string>, es: seq<Entry>) {
    && todo <= names
    && (forall i :: 0 <= i < |es| ==> es[i].name in names && es[i].name !in todo)
    && (forall i, j :: 0 <= i < j < |es| ==> es[i].name != es[j].name)
    && (forall e :: e in es <==> e.name in names - todo && e.isDirectory == IsDir(t, k + [e.name]))
  }

  lemma GatherStep(t: Tree, k: Path, names: set<string>, todo: set<string>, es: seq<Entry>, n: string)
    requires Gathered(t, k, names, todo, es) && n in todo
    ensures Gathered(t, k, names, todo - {n}, es + [Entry(n, IsDir(t, k + [n]))])
  {
    var es1 := es + [Entry(n, IsDir(t, k + [n]))];
    forall i | 0 <= i < |es1| ensures es1[i].name in names && es1[i].name !in todo - {n} {
      if i < |es| { assert es1[i] == es[i]; }
    }
    forall i, j | 0 <= i < j < |es1| ensures es1[i].name != es1[j].name {
      assert es1[i] == es[i];
      if j < |es| { assert es1[j] == es[j]; }
    }
  }

  lemma ListsChildren(t: Tree, k: Path, es: seq<Entry>)
    requires forall i, j :: 0 <= i < j < |es| ==> es[i].name != es[j].name
    requires forall e :: e in es <==> e.name in ChildNames(t, k) && e.isDirectory == IsDir(t, k + [e.name])
    ensures Lists(t, k, es)
  {
    forall e ensures e in es <==> k + [e.name] in t && e.isDirectory == IsDir(t, k + [e.name]) {
      ChildNamesExactly(t, k, e.name);
    }
  }

  /**
    `items` is a listing of directory `k`: its children whose names do not
    start with '.', each once and tagged "dir" exactly when it is a
    directory, directories first and each group in `localeCompare` order.
  */
  ghost predicate ListingOf(t: Tree, k: Path, lc: (string, string) -> int, items: seq<Item>) {
    && Sorted(lc, items)
    && (forall x :: x in items <==>
          !Hidden(x.name) && k + [x.name] in t && (x.kind == DirKind <==> IsDir(t, k + [x.name])))
    && (forall i, j :: 0 <= i < j < |items| ==> items[i].name != items[j].name)
  }

  /** The listing built from a directory's entries is a listing of that directory. */
  lemma ListedChildren(t: Tree, k: Path, es: seq<Entry>, lc: (string, string) -> int)
    requires Lists(t, k, es) && LocaleOrder(lc)
    ensures ListingOf(t, k, lc, List(lc, es))
  {
    ListContents(lc, es);
    ListDistinct(lc, es);
    forall x: Item | !Hidden(x.name) && k + [x.name] in t && (x.kind == DirKind <==> IsDir(t, k + [x.name]))
      ensures x in List(lc, es)
    {
      var e := Entry(x.name, x.kind == DirKind);
      assert e in es && ToItem(e) == x;
    }
  }

  class Store {
    var tree: Tree

    ghost predicate Valid()
      reads this
    {
      WellFormed(tree)
    }

    constructor(t: Tree)
      requires WellFormed(t)
      ensures Valid() && tree == t
    {
      tree := t;
    }

    /** `fs.readdir(k, { withFileTypes: true })`; the order of the entries is left open. */
    method ReadDir(k: Path) returns (r: Result<seq<Entry>, Errno>)
      requires Valid()
      ensures k !in tree ==> r == Err(Missing(tree, k))
      ensures k in tree && tree[k].File? ==> r == Err(ENOTDIR)
      ensures IsDir(tree, k) ==> r.Ok? && Lists(tree, k, r.value)
    {
      if k !in tree { return Err(Missing(tree, k)); }
      if tree[k].File? { return Err(ENOTDIR); }
      var names := ChildNames(tree, k);
      var todo := names;
      var es: seq<Entry> := [];
      while todo != {}
        invariant Gathered(tree, k, names, todo, es)
        decreases |todo|
      {
        var n :| n in todo;
        GatherStep(tree, k, names, todo, es, n);
        es := es + [Entry(n, IsDir(tree, k + [n]))];
        todo := todo - {n};
      }
      ListsChildren(tree, k, es);
      return Ok(es);
    }

    /**
      GET /api/files: the visible children of the directory, directories
      first and each group in `localeCompare` order, each tagged "dir"
      exactly when it is a directory.
    */
    method ListFiles(path: Param, lc: (string, string) -> int) returns (r: Response)
      requires Valid() && LocaleOrder(lc)
      ensures SafePath(path).Err? ==> r == BadRequest(ErrorMessage(SafePath(path).error))
      ensures SafePath(path).Ok? && HasNul(SafePath(path).value) ==> r == BadRequest(NulMessage(SafePath(path).value))
      ensures Reaches(path) ==>
                var k := Target(path);
                var fp := SafePath(path).value;
                && (k !in tree ==> r == BadRequest(Message(Missing(tree, k), "scandir", fp)))
                && (k in tree && tree[k].File? ==> r == BadRequest(Message(ENOTDIR, "scandir", fp)))
                && (IsDir(tree, k) ==> r.Listed? && ListingOf(tree, k, lc, r.items))
    {
      var sp := SafePath(path);
      if sp.Err? { return BadRequest(ErrorMessage(sp.error)); }
      var fp := sp.value;
      if HasNul(fp) { return BadRequest(NulMessage(fp)); }
      var k := Components(fp);
      var entries := ReadDir(k);
      if entries.Err? { return BadRequest(Message(entries.error, "scandir", fp)); }
      var es := entries.value;
      ListedChildren(tree, k, es, lc);
      return Listed(List(lc, es));
    }

    /** GET /api/file: the content of a file; a directory or a missing path is a 400. */
    method ReadFile(path: Param) returns (r: Response)
      requires Valid()
      ensures SafePath(path).Err? ==> r == BadRequest(ErrorMessage(SafePath(path).error))
      ensures SafePath(path).Ok? && HasNul(SafePath(path).value) ==> r == BadRequest(NulMessage(SafePath(path).value))
      ensures Reaches(path) ==>
                var k := Target(path);
                var fp := SafePath(path).value;
                && (k in tree && tree[k].File? ==> r == Text(tree[k].content))
                && (IsDir(tree, k) ==> r == BadRequest(Message(EISDIR, "read", fp)))
                && (k !in tree ==> r == BadRequest(Message(Missing(tree, k), "open", fp)))
    {
      var sp := SafePath(path);
      if sp.Err? { return BadRequest(ErrorMessage(sp.error)); }
      var fp := sp.value;
      if HasNul(fp) { return BadRequest(NulMessage(fp)); }
      var k := Components(fp);
      var content := ReadAt(tree, k);
      ReadAtSpec(tree, k);
      if content.Ok? { return Text(content.value); }
      if content.error == EISDIR { return BadRequest(Message(EISDIR, "read", fp)); }
      return BadRequest(Message(content.error, "open", fp));
    }

    /**
      POST /api/file: `mkdir -p` of the parent, then `writeFile`. It succeeds
      exactly when no ancestor of the target is a file, the target is not
      a directory and the path holds no NUL; then every ancestor is a
      directory and reading the target returns the body. A failing step
      leaves the state the steps before it produced.
    */
    method WriteFile(path: Param, body: string) returns (r: Response)
      requires Valid()
      modifies this
      ensures Valid()
      ensures SafePath(path).Err? ==> r == BadRequest(ErrorMessage(SafePath(path).error)) && tree == old(tree)
      ensures SafePath(path).Ok? ==>
                var k := Target(path);
                var fp := SafePath(path).value;
                var m := MakeDirs(old(tree), Parent(k));
                && (HasNul(Dirname(fp)) ==> r == BadRequest(NulMessage(Dirname(fp))))
                && (!HasNul(Dirname(fp)) && m.Ok? && HasNul(fp) ==> r == BadRequest(NulMessage(fp)))
                && (r == Done <==> !HasNul(fp) && NoFileAlong(old(tree), Parent(k)) && !IsDir(old(tree), k))
                && (r == Done ==> ReadAt(tree, k) == Ok(body) && DirsAlong(tree, Parent(k)))
                && (r.BadRequest? || r == Done)
                && tree == (if HasNul(Dirname(fp)) || m.Err? then old(tree)
                            else if HasNul(fp) || WriteAt(m.value, k, body).Err? then m.value
                            else WriteAt(m.value, k, body).value)
    {
      var sp := SafePath(path);
      if sp.Err? { return BadRequest(ErrorMessage(sp.error)); }
      var fp := sp.value;
      var k := Components(fp);
      SafeKey(path);
      var dir := Dirname(fp);
      if HasNul(dir) {
        DirnameChars(fp, '\0');
        return BadRequest(NulMessage(dir));
      }
      WriteSequence(tree, k, body);
      var made := MakeDirs(tree, Components(dir));
      if made.Err? { return BadRequest(Message(made.error, "mkdir", dir)); }
      MakeDirsEffect(tree, Parent(k));
      tree := made.value;
      if HasNul(fp) { return BadRequest(NulMessage(fp)); }
      var written := WriteAt(tree, k, body);
      if written.Err? { return BadRequest(Message(written.error, "open", fp)); }
      WriteAtSpec(tree, k, body);
      tree := written.value;
      return Done;
    }

    /**
      DELETE /api/file: `stat`, then `rm -r` for a directory and `unlink`
      otherwise. A directory goes with everything beneath it, a file alone;
      a missing path is a 400 and changes nothing. With no path at all the
      whole workspace goes.
    */
    method DeleteFile(path: Param) returns (r: Response)
      requires Valid()
      modifies this
      ensures Valid()
      ensures SafePath(path).Err? ==> r == BadRequest(ErrorMessage(SafePath(path).error)) && tree == old(tree)
      ensures SafePath(path).Ok? && HasNul(SafePath(path).value) ==>
                r == BadRequest(NulMessage(SafePath(path).value)) && tree == old(tree)
      ensures Reaches(path) ==>
                var k := Target(path);
                && (k !in old(tree) ==>
                      r == BadRequest(Message(Missing(old(tree), k), "stat", SafePath(path).value)) && tree == old(tree))
                && (IsDir(old(tree), k) ==>
                      && r == Done
                      && (forall x :: x in tree <==> x in old(tree) && !(k <= x))
                      && (forall x :: x in tree ==> tree[x] == old(tree)[x]))
                && (k in old(tree) && old(tree)[k].File? ==> r == Done && tree == old(tree) - {k})
      ensures path == Absent && IsDir(old(tree), BASE_SEGMENTS) ==>
                r == Done && forall x :: x in tree ==> !(BASE_SEGMENTS <= x)
    {
      if path == Absent {
        AbsentIsBase();
      }
      var sp := SafePath(path);
      if sp.Err? { return BadRequest(ErrorMessage(sp.error)); }
      var fp := sp.value;
      if HasNul(fp) { return BadRequest(NulMessage(fp)); }
      var k := Components(fp);
      SafeKey(path);
      var st := Stat(tree, k);
      if st.Err? { return BadRequest(Message(st.error, "stat", fp)); }
      if st.value.Dir? {
        RemoveTreeSpec(tree, k);
        tree := RemoveTree(tree, k);
      } else {
        UnlinkSpec(tree, k);
        tree := Unlink(tree, k);
      }
      return Done;
    }

    /**
      POST /api/mkdir: `mkdir -p` of the target. It succeeds exactly when no
      ancestor of the target, nor the target, is a file; an existing
      directory is left as it is.
    */
    method Mkdir(path: Param) returns (r: Response)
      requires Valid()
      modifies this
      ensures Valid()
      ensures SafePath(path).Err? ==> r == BadRequest(ErrorMessage(SafePath(path).error)) && tree == old(tree)
      ensures SafePath(path).Ok? && HasNul(SafePath(path).value) ==>
                r == BadRequest(NulMessage(SafePath(path).value)) && tree == old(tree)
      ensures Reaches(path) ==>
                var k := Target(path);
                var m := MakeDirs(old(tree), k);
                && (r == Done <==> NoFileAlong(old(tree), k))
                && (m.Err? ==> r == BadRequest(Message(m.error, "mkdir", SafePath(path).value)) && tree == old(tree))
                && (m.Ok? ==> r == Done && tree == m.value && DirsAlong(tree, k))
                && (IsDir(old(tree), k) ==> r == Done && tree == old(tree))
    {
      var sp := SafePath(path);
      if sp.Err? { return BadRequest(ErrorMessage(sp.error)); }
      var fp := sp.value;
      if HasNul(fp) { return BadRequest(NulMessage(fp)); }
      var k := Components(fp);
      var made := MakeDirs(tree, k);
      MakeDirsOutcome(tree, k);
      if made.Err? { return BadRequest(Message(made.error, "mkdir", fp)); }
      MakeDirsEffect(tree, k);
      tree := made.value;
      return Done;
    }
  }
}
