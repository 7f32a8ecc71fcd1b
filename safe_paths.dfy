/**
  `safePath` (code-server/file-server.js): a client-supplied path is resolved
  against the fixed workspace root and accepted only when the resolved string
  starts with the root string. The check is a string-prefix test, so it is
  not a segment-wise containment test: a sibling such as
  "/home/coder/projects-evil" passes it too (SiblingAccepted below).
*/
module SafePaths {
  import opened Wrappers
  import opened Paths

  /** The workspace root. */
  const BASE: string := "/home/coder/projects"

  /** The segments of BASE. */
  const BASE_SEGMENTS: Path := ["home", "coder", "projects"]

  /**
    A query parameter as Express hands it over: missing, a string, or a
    non-string value (an array or object parsed from a repeated or bracketed
    key), which is truthy in JavaScript and makes `path.resolve` throw.
  */
  datatype Param = Absent | Given(s: string) | NonString

  datatype PathError = AccessDenied | InvalidArgType

  /** The `message` of the Error each failure throws. */
  function ErrorMessage(e: PathError): string {
    match e
    case AccessDenied => "Access denied"
    case InvalidArgType => "The \"paths[1]\" argument must be of type string"
  }

  /** `p || ''`: a missing parameter becomes the empty string. */
  function OrEmpty(p: Param): (q: Param)
    ensures p.Absent? ==> q == Given("")
    ensures !p.Absent? ==> q == p
  {
    if p.Absent? then Given("") else p
  }

  /** The segments `path.resolve(BASE, s)` arrives at. */
  function Resolved(s: string): Path {
    Components(if IsAbsolute(s) then s else BASE + "/" + s)
  }

  /**
    `safePath(p)`. A success is an absolute, normalized path (normalizing it
    again changes nothing) that has BASE as a string prefix; a value that is not a
    string is refused with the TypeError of `path.resolve`, and a rejected
    string is always `Access denied`.
  */
  function SafePath(p: Param): (r: Result<string, PathError>)
    ensures r.Ok? ==> IsAbsolute(r.value) && Render(Components(r.value)) == r.value && BASE <= r.value
    ensures p.NonString? ==> r == Err(InvalidArgType)
    ensures r.Err? && !p.NonString? ==> r.error == AccessDenied
  {
    match OrEmpty(p)
    case Given(s) =>
      var resolved := Render(Resolved(s));
      if BASE <= resolved then
        ComponentsRender(Resolved(s));
        Ok(resolved)
      else
        Err(AccessDenied)
    case _ => Err(InvalidArgType)
  }

  // ---------------------------------------------------------------------------
  // What the prefix test accepts

  lemma BaseSpelled()
    ensures Render(BASE_SEGMENTS) == BASE
  {
    RenderThree("home", "coder", "projects");
    assert "/" + "home" == "/home" && "/" + "coder" == "/coder" && "/" + "projects" == "/projects";
  }

  lemma BaseRendered()
    ensures Render(BASE_SEGMENTS) == BASE
    ensures Components(BASE) == BASE_SEGMENTS
  {
    BaseSpelled();
    assert Normal(BASE_SEGMENTS);
    ComponentsRender(BASE_SEGMENTS);
  }

  /**
    The exact set of normalized paths the string-prefix test lets through:
    those under "/home/coder" whose third segment starts with "projects".
  */
  lemma AcceptedExactly(q: Path)
    requires AllNoSlash(q)
    ensures BASE <= Render(q) <==> |q| >= 3 && q[0] == "home" && q[1] == "coder" && "projects" <= q[2]
  {
    BaseSpelled();
    if q == [] {
      assert |Render(q)| < |BASE|;
    } else {
      assert Render(q) == Slashed(q);
      assert BASE == Slashed(BASE_SEGMENTS);
      SlashedPrefix(BASE_SEGMENTS, q);
      assert BASE_SEGMENTS[..2] == ["home", "coder"];
      if |q| >= 3 {
        assert q[..2] == [q[0], q[1]];
      }
    }
  }

  /** `safePath` on a string succeeds exactly when the resolved segments pass the prefix test, and returns their rendering. */
  lemma SafePathExactly(s: string)
    ensures var q := Resolved(s);
            SafePath(Given(s)).Ok? <==> |q| >= 3 && q[0] == "home" && q[1] == "coder" && "projects" <= q[2]
    ensures SafePath(Given(s)).Ok? ==> SafePath(Given(s)).value == Render(Resolved(s))
  {
    AcceptedExactly(Resolved(s));
  }

  /** Every path that resolves to BASE or a segment-descendant of it is accepted unchanged. */
  lemma DescendantAccepted(s: string)
    requires BASE_SEGMENTS <= Resolved(s)
    ensures SafePath(Given(s)) == Ok(Render(Resolved(s)))
  {
    var q := Resolved(s);
    assert q[..3] == BASE_SEGMENTS;
    assert q[0] == "home" && q[1] == "coder" && q[2] == "projects";
    SafePathExactly(s);
  }

  lemma {:induction false} FoldWithoutDotDot(acc: Path, parts: seq<string>)
    requires forall i :: 0 <= i < |parts| ==> parts[i] != ".."
    ensures Fold(acc, parts) == acc + Fold([], parts)
    decreases |parts|
  {
    if parts != [] {
      var q := parts[0];
      if q == "" || q == "." {
        FoldWithoutDotDot(acc, parts[1..]);
      } else {
        FoldWithoutDotDot(acc + [q], parts[1..]);
        FoldWithoutDotDot([q], parts[1..]);
        assert [] + [q] == [q];
        assert acc + [q] + Fold([], parts[1..]) == acc + ([q] + Fold([], parts[1..]));
      }
    }
  }

  /** A relative path with no ".." segment stays under BASE: it resolves to BASE followed by its own segments. */
  lemma RelativeAccepted(s: string)
    requires !IsAbsolute(s)
    requires forall i :: 0 <= i < |Split(s)| ==> Split(s)[i] != ".."
    ensures Resolved(s) == BASE_SEGMENTS + Components(s)
    ensures SafePath(Given(s)) == Ok(Render(BASE_SEGMENTS + Components(s)))
  {
    BaseRendered();
    SplitJoin(BASE, s);
    FoldAppend([], Split(BASE), Split(s));
    FoldWithoutDotDot(BASE_SEGMENTS, Split(s));
    DescendantAccepted(s);
  }

  lemma ResolvedEmpty()
    ensures Resolved("") == BASE_SEGMENTS
  {
    BaseRendered();
    assert BASE + "/" + "" == BASE + "/";
    SplitJoin(BASE, "");
    FoldAppend([], Split(BASE), [""]);
    assert Fold(BASE_SEGMENTS, [""]) == BASE_SEGMENTS;
  }

  lemma PrefixRefl(s: string)
    ensures s <= s
  {
  }

  /** A missing or empty path means the root itself. */
  lemma EmptyIsBase()
    ensures SafePath(Absent) == Ok(BASE)
    ensures SafePath(Given("")) == Ok(BASE)
  {
    ResolvedEmpty();
    BaseSpelled();
    PrefixRefl(BASE);
    assert OrEmpty(Absent) == Given("");
  }

  /** How a relative path written as its slash-free pieces resolves: the pieces are folded onto BASE. */
  lemma ResolvedPieces(x: string, r: Path)
    requires x != "" && NoSlash(x) && AllNoSlash(r)
    ensures Resolved(x + Slashed(r)) == Fold(BASE_SEGMENTS, [x] + r)
  {
    var s := x + Slashed(r);
    assert s[0] == x[0];
    BaseRendered();
    SplitJoin(BASE, s);
    SplitRender(BASE_SEGMENTS);
    SplitSegments(x, r);
    FoldAppend([], [""] + BASE_SEGMENTS, [x] + r);
    assert Fold([], [""] + BASE_SEGMENTS) == Fold([], BASE_SEGMENTS);
    FoldNormal([], BASE_SEGMENTS);
  }

  lemma EscapeSpelled()
    ensures "../../etc/passwd" == ".." + Slashed(["..", "etc", "passwd"])
    ensures Render(["home", "etc", "passwd"]) == "/home/etc/passwd"
  {
    RenderThree("..", "etc", "passwd");
    RenderThree("home", "etc", "passwd");
    assert "/" + "home" == "/home" && "/" + ".." == "/.." && "/" + "etc" == "/etc" && "/" + "passwd" == "/passwd";
  }

  lemma EscapeResolved()
    ensures Resolved("../../etc/passwd") == ["home", "etc", "passwd"]
  {
    EscapeSpelled();
    ResolvedPieces("..", ["..", "etc", "passwd"]);
    FoldUp(BASE_SEGMENTS, ["..", "etc", "passwd"]);
    assert Parent(BASE_SEGMENTS) == ["home", "coder"];
    FoldUp(["home", "coder"], ["etc", "passwd"]);
    assert Parent(["home", "coder"]) == ["home"];
    assert Normal(["etc", "passwd"]);
    FoldNormal(["home"], ["etc", "passwd"]);
    assert ["home"] + ["etc", "passwd"] == ["home", "etc", "passwd"];
  }

  /** Climbing out of the root: "../../etc/passwd" resolves to "/home/etc/passwd" and is rejected. */
  lemma EscapeRejected()
    ensures Resolve(BASE, "../../etc/passwd") == "/home/etc/passwd"
    ensures SafePath(Given("../../etc/passwd")) == Err(AccessDenied)
  {
    EscapeResolved();
    EscapeSpelled();
    AcceptedExactly(["home", "etc", "passwd"]);
  }

  lemma SiblingSpelled()
    ensures "../projects-evil" == ".." + Slashed(["projects-evil"])
    ensures Render(["home", "coder", "projects-evil"]) == "/home/coder/projects-evil"
  {
    RenderThree("home", "coder", "projects-evil");
    assert Slashed(["projects-evil"]) == "/" + "projects-evil" + Slashed([]);
    assert "/" + "home" == "/home" && "/" + "coder" == "/coder" && "/" + "projects-evil" == "/projects-evil";
  }

  lemma SiblingResolved()
    ensures Resolved("../projects-evil") == ["home", "coder", "projects-evil"]
  {
    SiblingSpelled();
    ResolvedPieces("..", ["projects-evil"]);
    FoldUp(BASE_SEGMENTS, ["projects-evil"]);
    assert Parent(BASE_SEGMENTS) == ["home", "coder"];
    assert Normal(["projects-evil"]);
    FoldNormal(["home", "coder"], ["projects-evil"]);
    assert ["home", "coder"] + ["projects-evil"] == ["home", "coder", "projects-evil"];
  }

  /**
    The gap the string-prefix test leaves open: "../projects-evil" leaves the
    workspace for a sibling directory, which is not a segment-descendant of
    BASE, and is still accepted.
  */
  lemma SiblingAccepted()
    ensures Resolve(BASE, "../projects-evil") == "/home/coder/projects-evil"
    ensures SafePath(Given("../projects-evil")) == Ok("/home/coder/projects-evil")
    ensures !(BASE_SEGMENTS <= Resolved("../projects-evil"))
  {
    var q: Path := ["home", "coder", "projects-evil"];
    SiblingResolved();
    SiblingSpelled();
    AcceptedExactly(q);
    assert "projects" <= "projects-evil";
    assert q[2] != BASE_SEGMENTS[2];
  }

  /** An accepted path fed back in is accepted unchanged: an absolute argument makes `resolve` ignore BASE. */
  lemma Idempotent(p: Param)
    requires SafePath(p).Ok?
    ensures SafePath(Given(SafePath(p).value)) == SafePath(p)
  {
    var r := SafePath(p).value;
    ResolveRendered(BASE, Components(r));
  }
}
