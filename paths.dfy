/**
  POSIX path strings, treated purely lexically as Node's `path` module does:
  splitting on '/', folding away empty, "." and ".." segments, rendering a
  segment list back to an absolute string, `path.resolve` against a base and
  `path.dirname`. Nothing here looks at a filesystem, so symbolic links play
  no part.
*/
module Paths {

  /** A normalized absolute path, as the list of its segments ("/a/b" is ["a", "b"]). */
  type Path = seq<string>

  predicate NoSlash(s: string) {
    forall i :: 0 <= i < |s| ==> s[i] != '/'
  }

  predicate AllNoSlash(parts: seq<string>) {
    forall i :: 0 <= i < |parts| ==> NoSlash(parts[i])
  }

  /** A segment that survives normalization. */
  predicate IsSegment(s: string) {
    s != "" && s != "." && s != ".." && NoSlash(s)
  }

  /** No empty, "." or ".." segment, and no '/' inside a segment. */
  predicate Normal(p: Path) {
    forall i :: 0 <= i < |p| ==> IsSegment(p[i])
  }

  predicate IsAbsolute(s: string) {
    |s| > 0 && s[0] == '/'
  }

  function Parent(p: Path): Path
    requires |p| > 0
  {
    p[..|p| - 1]
  }

  /** The inverse of Split: the parts joined with '/'. */
  function JoinSlash(parts: seq<string>): string
    requires |parts| >= 1
  {
    if |parts| == 1 then parts[0] else parts[0] + "/" + JoinSlash(parts[1..])
  }

  /** `s.split('/')`: the pieces between the slashes (SplitPieces: none holds a slash). */
  function Split(s: string): (parts: seq<string>)
    ensures |parts| >= 1
    decreases |s|
  {
    if |s| == 0 then [""]
    else if s[0] == '/' then [""] + Split(s[1..])
    else
      var rest := Split(s[1..]);
      [[s[0]] + rest[0]] + rest[1..]
  }

  lemma {:induction false} SplitPieces(s: string)
    ensures AllNoSlash(Split(s))
    decreases |s|
  {
    if |s| > 0 {
      SplitPieces(s[1..]);
      var rest := Split(s[1..]);
      if s[0] != '/' {
        var head := [s[0]] + rest[0];
        assert NoSlash(head) by {
          forall i | 0 <= i < |head| ensures head[i] != '/' {
            if i > 0 { assert head[i] == rest[0][i - 1]; }
          }
        }
        var parts := Split(s);
        forall i | 0 <= i < |parts| ensures NoSlash(parts[i]) {
          if i > 0 { assert parts[i] == rest[i]; }
        }
      } else {
        var parts := Split(s);
        forall i | 0 <= i < |parts| ensures NoSlash(parts[i]) {
          if i > 0 { assert parts[i] == rest[i - 1]; }
        }
      }
    }
  }

  /** Joining the pieces of a split with '/' gives back the string. */
  lemma {:induction false} JoinSplit(s: string)
    ensures JoinSlash(Split(s)) == s
    decreases |s|
  {
    if |s| > 0 {
      var rest := Split(s[1..]);
      JoinSplit(s[1..]);
      assert s == [s[0]] + s[1..];
      if s[0] == '/' {
        assert JoinSlash([""] + rest) == "" + "/" + JoinSlash(rest);
      } else {
        var head := [s[0]] + rest[0];
        assert JoinSlash([head] + rest[1..]) == [s[0]] + JoinSlash(rest) by {
          if |rest| > 1 {
            assert ([head] + rest[1..])[1..] == rest[1..];
          }
        }
      }
    }
  }

  /**
    The segment fold of Node's normalizeString for an absolute path: empty and
    "." parts are skipped, ".." drops the last segment (and stays put at the
    root), anything else is appended.
  */
  function Fold(acc: Path, parts: seq<string>): (r: Path)
    ensures Normal(acc) && AllNoSlash(parts) ==> Normal(r)
    decreases |parts|
  {
    if parts == [] then acc
    else
      var q := parts[0];
      assert AllNoSlash(parts) ==> AllNoSlash(parts[1..]) by {
        if AllNoSlash(parts) {
          forall i | 0 <= i < |parts[1..]| ensures NoSlash(parts[1..][i]) {
            assert parts[1..][i] == parts[i + 1];
          }
        }
      }
      if q == "" || q == "." then Fold(acc, parts[1..])
      else if q == ".." then Fold(if acc == [] then [] else Parent(acc), parts[1..])
      else Fold(acc + [q], parts[1..])
  }

  /** The segments an absolute path string denotes after lexical normalization. */
  function Components(s: string): (p: Path)
    ensures Normal(p)
  {
    SplitPieces(s);
    Fold([], Split(s))
  }

  /** "/a/b" for ["a", "b"], and "" for []. */
  function Slashed(p: Path): string {
    if p == [] then "" else "/" + p[0] + Slashed(p[1..])
  }

  /** The absolute path string of a segment list; the root is "/". */
  function Render(p: Path): (s: string)
    ensures IsAbsolute(s)
  {
    if p == [] then "/" else Slashed(p)
  }

  /** POSIX `path.resolve(base, s)` for an absolute `base`. */
  function Resolve(base: string, s: string): string {
    Render(Components(if IsAbsolute(s) then s else base + "/" + s))
  }

  /** Extending a slash-free tail of `s` minus its last character by that character, when it is not a slash. */
  lemma NoSlashExtend(s: string, j: int)
    requires 0 <= j < |s| && s[|s| - 1] != '/' && NoSlash(s[..|s| - 1][j..])
    ensures NoSlash(s[j..])
  {
    var tail, init := s[j..], s[..|s| - 1][j..];
    forall k | 0 <= k < |tail| ensures tail[k] != '/' {
      if k < |init| { assert tail[k] == init[k]; }
    }
  }

  /** Index of the last '/' in `s`, or -1 when there is none. */
  function LastSlash(s: string): (i: int)
    ensures -1 <= i < |s|
    ensures i >= 0 ==> s[i] == '/' && NoSlash(s[i + 1..])
    ensures i == -1 ==> NoSlash(s)
  {
    if |s| == 0 then -1
    else if s[|s| - 1] == '/' then |s| - 1
    else
      var i := LastSlash(s[..|s| - 1]);
      if i == -1 then
        assert s[..|s| - 1][0..] == s[..|s| - 1] && s[0..] == s;
        NoSlashExtend(s, 0);
        i
      else
        NoSlashExtend(s, i + 1);
        i
  }

  /**
    POSIX `path.dirname` for paths without a trailing or doubled slash (every
    string Render produces): everything before the last slash, "/" when that
    slash is the leading one, "." when there is no slash.
  */
  function Dirname(s: string): string {
    var i := LastSlash(s);
    if i == -1 then "."
    else if i == 0 then "/"
    else s[..i]
  }

  // ---------------------------------------------------------------------------
  // Lemmas about splitting and rendering

  lemma {:induction false} SplitNoSlash(a: string)
    requires NoSlash(a)
    ensures Split(a) == [a]
    decreases |a|
  {
    if |a| > 0 {
      SplitNoSlash(a[1..]);
      assert [a[0]] + a[1..] == a;
    }
  }

  /** One step of Split: how the first character of `c` + `u` joins the pieces of `u`. */
  lemma SplitCons(c: char, u: string)
    ensures c == '/' ==> Split([c] + u) == [""] + Split(u)
    ensures c != '/' ==> Split([c] + u) == [[c] + Split(u)[0]] + Split(u)[1..]
  {
    assert ([c] + u)[0] == c && ([c] + u)[1..] == u;
  }

  lemma Assoc3<T>(x: seq<T>, y: seq<T>, z: seq<T>)
    ensures x + y + z == x + (y + z)
  {
  }

  lemma Assoc4<T>(w: seq<T>, x: seq<T>, y: seq<T>, z: seq<T>)
    ensures w + x + y + z == w + (x + y + z)
  {
  }

  /** Splitting distributes over a '/' join. */
  lemma {:induction false} SplitJoin(a: string, b: string)
    ensures Split(a + "/" + b) == Split(a) + Split(b)
    decreases |a|
  {
    if |a| == 0 {
      assert a + "/" + b == ['/'] + b;
      SplitCons('/', b);
    } else {
      var c, u := a[0], a[1..];
      var v := u + "/" + b;
      assert a == [c] + u;
      Assoc4([c], u, "/", b);
      SplitJoin(u, b);
      var x, y := Split(u), Split(b);
      assert Split(v) == x + y;
      SplitCons(c, u);
      SplitCons(c, v);
      if c != '/' {
        assert (x + y)[0] == x[0];
        assert (x + y)[1..] == x[1..] + y;
        assert Split([c] + v) == [[c] + x[0]] + (x[1..] + y);
        assert Split(a) == [[c] + x[0]] + x[1..];
        Assoc3([[c] + x[0]], x[1..], y);
      } else {
        assert Split([c] + v) == [""] + (x + y);
        assert Split(a) == [""] + x;
        Assoc3([""], x, y);
      }
    }
  }

  lemma {:induction false} SplitSegments(x: string, r: Path)
    requires NoSlash(x) && AllNoSlash(r)
    ensures Split(x + Slashed(r)) == [x] + r
    decreases |r|
  {
    if r == [] {
      assert x + Slashed(r) == x;
      SplitNoSlash(x);
    } else {
      assert x + Slashed(r) == x + "/" + (r[0] + Slashed(r[1..]));
      SplitJoin(x, r[0] + Slashed(r[1..]));
      SplitNoSlash(x);
      SplitSegments(r[0], r[1..]);
      assert [x] + ([r[0]] + r[1..]) == [x] + r;
    }
  }

  /** Rendering a non-empty list of slash-free segments splits back to "" and the segments. */
  lemma SplitRender(p: Path)
    requires |p| > 0 && AllNoSlash(p)
    ensures Split(Render(p)) == [""] + p
  {
    assert Render(p) == "" + "/" + (p[0] + Slashed(p[1..]));
    SplitJoin("", p[0] + Slashed(p[1..]));
    SplitSegments(p[0], p[1..]);
    assert [p[0]] + p[1..] == p;
  }

  lemma {:induction false} FoldNormal(acc: Path, p: Path)
    requires Normal(p)
    ensures Fold(acc, p) == acc + p
    decreases |p|
  {
    if p != [] {
      FoldNormal(acc + [p[0]], p[1..]);
      assert acc + [p[0]] + p[1..] == acc + p;
    }
  }

  /** A leading ".." drops the last segment of a non-empty accumulator. */
  lemma FoldUp(acc: Path, rest: seq<string>)
    requires acc != []
    ensures Fold(acc, [".."] + rest) == Fold(Parent(acc), rest)
  {
    assert ([".."] + rest)[0] == ".." && ([".."] + rest)[1..] == rest;
  }

  lemma {:induction false} FoldAppend(acc: Path, a: seq<string>, b: seq<string>)
    ensures Fold(acc, a + b) == Fold(Fold(acc, a), b)
    decreases |a|
  {
    if a == [] {
      assert a + b == b;
    } else {
      assert (a + b)[0] == a[0];
      assert (a + b)[1..] == a[1..] + b;
      var acc' := if a[0] == "" || a[0] == "." then acc
                  else if a[0] == ".." then (if acc == [] then [] else Parent(acc))
                  else acc + [a[0]];
      FoldAppend(acc', a[1..], b);
    }
  }

  /** Normalizing a rendered normal path gives back its segments. */
  lemma ComponentsRender(p: Path)
    requires Normal(p)
    ensures Components(Render(p)) == p
  {
    if p == [] {
      assert Render(p) == "" + "/" + "";
      SplitJoin("", "");
      assert Split(Render(p)) == ["", ""];
      assert Fold([], ["", ""]) == Fold([], [""]) == Fold([], []);
    } else {
      SplitRender(p);
      FoldNormal([], p);
    }
  }

  /** Rendering is injective on normal paths. */
  lemma RenderInjective(p: Path, q: Path)
    requires Normal(p) && Normal(q) && Render(p) == Render(q)
    ensures p == q
  {
    ComponentsRender(p);
    ComponentsRender(q);
  }

  /** `resolve` leaves a rendered normal path unchanged, whatever the base. */
  lemma ResolveRendered(base: string, p: Path)
    requires Normal(p)
    ensures Resolve(base, Render(p)) == Render(p)
  {
    ComponentsRender(p);
  }

  lemma {:induction false} SlashedAppend(a: Path, b: Path)
    ensures Slashed(a + b) == Slashed(a) + Slashed(b)
    decreases |a|
  {
    if a != [] {
      assert (a + b)[0] == a[0];
      assert (a + b)[1..] == a[1..] + b;
      SlashedAppend(a[1..], b);
    } else {
      assert a + b == b;
    }
  }

  lemma {:induction false} LastSlashAfter(x: string, y: string)
    requires NoSlash(y)
    ensures LastSlash(x + "/" + y) == |x|
    decreases |y|
  {
    var s := x + "/" + y;
    if |y| == 0 {
      assert s[|s| - 1] == '/';
    } else {
      var y' := y[..|y| - 1];
      assert NoSlash(y') by {
        forall k | 0 <= k < |y'| ensures y'[k] != '/' { assert y'[k] == y[k]; }
      }
      assert s[..|s| - 1] == x + "/" + y';
      assert s[|s| - 1] == y[|y| - 1] != '/';
      LastSlashAfter(x, y');
    }
  }

  /** `dirname` of a rendered path renders the parent segment list. */
  /** Every character of `path.dirname(s)` other than '.' is a character of `s`. */
  lemma DirnameChars(s: string, c: char)
    requires c in Dirname(s) && c != '.'
    ensures c in s
  {
    var i := LastSlash(s);
    if i == 0 {
      assert s[0] == c;
    } else if i > 0 {
      var j :| 0 <= j < i && s[..i][j] == c;
      assert s[j] == c;
    }
  }

  lemma DirnameRender(p: Path)
    requires |p| > 0 && Normal(p)
    ensures Dirname(Render(p)) == Render(Parent(p))
  {
    var last := p[|p| - 1];
    assert p == Parent(p) + [last];
    SlashedAppend(Parent(p), [last]);
    assert Slashed([last]) == "/" + last + "";
    assert Render(p) == Slashed(Parent(p)) + "/" + last;
    LastSlashAfter(Slashed(Parent(p)), last);
    if Parent(p) != [] {
      assert (Slashed(Parent(p)) + "/" + last)[..|Slashed(Parent(p))|] == Slashed(Parent(p));
    }
  }

  // ---------------------------------------------------------------------------
  // String prefixes of rendered paths

  lemma SlashedStart(p: Path)
    ensures Slashed(p) == "" || Slashed(p)[0] == '/'
  {
  }

  lemma PrefixAt(pre: string, s: string, k: int)
    requires pre <= s && 0 <= k < |pre|
    ensures s[k] == pre[k]
  {
  }

  /** A slash-free segment `a` followed by `r` (empty or starting at a slash) starts with `w` "/" `t` exactly when `a` is `w`. */
  lemma SegmentPrefix(a: string, r: string, w: string, t: string)
    requires NoSlash(a) && NoSlash(w)
    requires r == "" || r[0] == '/'
    ensures (w + "/" + t <= a + r) <==> (a == w && "/" + t <= r)
  {
    var pre, s := w + "/" + t, a + r;
    if pre <= s {
      if |a| < |w| {
        PrefixAt(pre, s, |a|);
        assert false;
      }
      if |a| > |w| {
        PrefixAt(pre, s, |w|);
        assert false;
      }
      assert a == s[..|w|] == pre[..|w|] == w;
      assert r == s[|w|..];
      assert pre[|w|..] == "/" + t;
    }
    if a == w && "/" + t <= r {
      assert s[..|pre|] == w + r[..|t| + 1];
    }
  }

  /** The same for the final segment of the prefix, which need only start the segment. */
  lemma LastSegmentPrefix(a: string, r: string, w: string)
    requires NoSlash(a) && NoSlash(w)
    requires r == "" || r[0] == '/'
    ensures (w <= a + r) <==> (w <= a)
  {
    var s := a + r;
    if w <= s {
      if |a| < |w| {
        PrefixAt(w, s, |a|);
        assert false;
      }
      assert w == s[..|w|] == a[..|w|];
    }
    if w <= a {
      assert s[..|w|] == a[..|w|];
    }
  }

  lemma ConsPrefix(c: char, u: string, v: string)
    ensures ([c] + u <= [c] + v) <==> (u <= v)
  {
    if [c] + u <= [c] + v {
      assert u == ([c] + u)[1..] == ([c] + v)[1..|u| + 1] == v[..|u|];
    }
    if u <= v {
      assert ([c] + v)[..|u| + 1] == [c] + v[..|u|];
    }
  }

  lemma TailNoSlash(q: Path)
    requires |q| > 0 && AllNoSlash(q)
    ensures AllNoSlash(q[1..])
  {
    forall i | 0 <= i < |q[1..]| ensures NoSlash(q[1..][i]) { assert q[1..][i] == q[i + 1]; }
  }

  lemma SlashedCons(p: Path)
    requires p != []
    ensures Slashed(p) == ['/'] + (p[0] + Slashed(p[1..]))
  {
  }

  /** The prefix relation of one-segment renderings. */
  lemma SlashedPrefixOne(b: Path, q: Path)
    requires |b| == 1 && q != [] && AllNoSlash(b) && AllNoSlash(q)
    ensures Slashed(b) <= Slashed(q) <==> b[0] <= q[0]
  {
    var rq := Slashed(q[1..]);
    SlashedCons(b);
    SlashedCons(q);
    assert Slashed(b[1..]) == "";
    assert b[0] + Slashed(b[1..]) == b[0];
    ConsPrefix('/', b[0], q[0] + rq);
    SlashedStart(q[1..]);
    LastSegmentPrefix(q[0], rq, b[0]);
  }

  /** The prefix relation of longer renderings, one segment at a time. */
  lemma SlashedPrefixCons(b: Path, q: Path)
    requires |b| > 1 && q != [] && AllNoSlash(b) && AllNoSlash(q)
    ensures Slashed(b) <= Slashed(q) <==> b[0] == q[0] && Slashed(b[1..]) <= Slashed(q[1..])
  {
    var rb, rq := Slashed(b[1..]), Slashed(q[1..]);
    var t := b[1] + Slashed(b[2..]);
    assert rb == "/" + t by {
      SlashedCons(b[1..]);
      assert b[1..][1..] == b[2..];
    }
    var x, y := b[0] + rb, q[0] + rq;
    var w := b[0] + "/" + t;
    assert x == w by { Assoc3(b[0], "/", t); }
    SlashedCons(b);
    SlashedCons(q);
    ConsPrefix('/', x, y);
    SlashedStart(q[1..]);
    SegmentPrefix(q[0], rq, b[0], t);
  }

  lemma HeadsAndTails(b: Path, q: Path, n: int)
    requires 1 <= n <= |b| && n <= |q|
    ensures b[..n] == q[..n] <==> b[0] == q[0] && b[1..][..n - 1] == q[1..][..n - 1]
  {
    assert b[..n] == [b[0]] + b[1..][..n - 1];
    assert q[..n] == [q[0]] + q[1..][..n - 1];
    if b[..n] == q[..n] {
      assert b[0] == b[..n][0];
      assert b[1..][..n - 1] == b[..n][1..];
    }
  }

  /**
    One rendered segment list starts another exactly when all but the last
    segment agree and the last segment starts the corresponding one.
  */
  lemma {:induction false} SlashedPrefix(b: Path, q: Path)
    requires |b| > 0 && AllNoSlash(b) && AllNoSlash(q)
    ensures Slashed(b) <= Slashed(q) <==>
              |b| <= |q| && b[..|b| - 1] == q[..|b| - 1] && b[|b| - 1] <= q[|b| - 1]
    decreases |b|
  {
    if q == [] {
      assert |Slashed(b)| > 0;
    } else if |b| == 1 {
      SlashedPrefixOne(b, q);
    } else {
      SlashedPrefixCons(b, q);
      TailNoSlash(b);
      TailNoSlash(q);
      SlashedPrefix(b[1..], q[1..]);
      if |b| <= |q| {
        HeadsAndTails(b, q, |b| - 1);
        assert b[1..][|b| - 2] == b[|b| - 1] && q[1..][|b| - 2] == q[|b| - 1];
      }
    }
  }

  /** A three-segment path written out. */
  lemma RenderThree(x: string, y: string, z: string)
    ensures Render([x, y, z]) == ("/" + x) + ("/" + y) + ("/" + z)
  {
    assert [x, y, z][1..] == [y, z];
    assert [y, z][1..] == [z];
    assert Slashed([z]) == "/" + z + Slashed([]);
    assert Slashed([y, z]) == "/" + y + ("/" + z);
    assert Slashed([x, y, z]) == "/" + x + ("/" + y + ("/" + z));
  }
}
