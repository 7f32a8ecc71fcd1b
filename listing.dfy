/**
  The directory listing of GET /api/files (code-server/file-server.js): the
  entries `readdir` returns are filtered (names starting with '.' are
  dropped), mapped to `{name, type}` items and sorted with the comparator
  `(a, b) => a.type === b.type ? a.name.localeCompare(b.name) : a.type === 'dir' ? -1 : 1`.
  `localeCompare` is a parameter `lc`, constrained only to be a total preorder.
*/
module Listing {

  /** A directory entry as `readdir(dir, { withFileTypes: true })` reports it. */
  datatype Entry = Entry(name: string, isDirectory: bool)

  /** The `type` field: "dir" or "file". */
  datatype Kind = DirKind | FileKind

  datatype Item = Item(name: string, kind: Kind)

  function TypeName(k: Kind): string {
    match k
    case DirKind => "dir"
    case FileKind => "file"
  }

  /** `name.startsWith('.')`. */
  predicate Hidden(name: string) {
    |name| > 0 && name[0] == '.'
  }

  /** `.filter(e => !e.name.startsWith('.'))`. */
  function Visible(es: seq<Entry>): (r: seq<Entry>)
    ensures |r| <= |es|
    ensures forall e :: e in r <==> e in es && !Hidden(e.name)
    ensures forall e :: multiset(r)[e] == if Hidden(e.name) then 0 else multiset(es)[e]
  {
    if es == [] then []
    else
      assert es == [es[0]] + es[1..];
      if Hidden(es[0].name) then Visible(es[1..])
      else [es[0]] + Visible(es[1..])
  }

  function ToItem(e: Entry): Item {
    Item(e.name, if e.isDirectory then DirKind else FileKind)
  }

  /** `.map(e => ({ name: e.name, type: e.isDirectory() ? 'dir' : 'file' }))`. */
  function Items(es: seq<Entry>): (r: seq<Item>)
    ensures |r| == |es|
    ensures forall i :: 0 <= i < |es| ==> r[i] == ToItem(es[i])
    ensures forall i :: 0 <= i < |es| ==> TypeName(r[i].kind) == if es[i].isDirectory then "dir" else "file"
  {
    if es == [] then [] else [ToItem(es[0])] + Items(es[1..])
  }

  /** `localeCompare` is consistent: `lc(a, b) <= 0` is a total preorder. */
  ghost predicate LocaleOrder(lc: (string, string) -> int) {
    && (forall a, b :: lc(a, b) <= 0 || lc(b, a) <= 0)
    && (forall a, b, c :: lc(a, b) <= 0 && lc(b, c) <= 0 ==> lc(a, c) <= 0)
  }

  /** The comparator passed to `.sort`. */
  function Compare(lc: (string, string) -> int, a: Item, b: Item): int {
    if a.kind == b.kind then lc(a.name, b.name)
    else if a.kind == DirKind then -1
    else 1
  }

  /** `a` may stand before `b`. */
  predicate Before(lc: (string, string) -> int, a: Item, b: Item) {
    Compare(lc, a, b) <= 0
  }

  ghost predicate Sorted(lc: (string, string) -> int, s: seq<Item>) {
    forall i, j :: 0 <= i < j < |s| ==> Before(lc, s[i], s[j])
  }

  /** The comparator inherits totality and transitivity from `localeCompare`. */
  lemma BeforeOrder(lc: (string, string) -> int)
    requires LocaleOrder(lc)
    ensures forall a, b :: Before(lc, a, b) || Before(lc, b, a)
    ensures forall a, b, c :: Before(lc, a, b) && Before(lc, b, c) ==> Before(lc, a, c)
  {
  }

  lemma PrependSorted(lc: (string, string) -> int, y: Item, rest: seq<Item>)
    requires Sorted(lc, rest)
    requires forall z :: z in rest ==> Before(lc, y, z)
    ensures Sorted(lc, [y] + rest)
  {
    var r := [y] + rest;
    forall i, j | 0 <= i < j < |r| ensures Before(lc, r[i], r[j]) {
      assert r[j] == rest[j - 1];
      if i > 0 { assert r[i] == rest[i - 1]; }
    }
  }

  lemma HeadBefore(lc: (string, string) -> int, s: seq<Item>, x: Item, rest: seq<Item>)
    requires s != [] && Sorted(lc, s) && Before(lc, s[0], x)
    requires multiset(rest) == multiset(s[1..]) + multiset{x}
    ensures forall y :: y in rest ==> Before(lc, s[0], y)
  {
    forall y | y in rest ensures Before(lc, s[0], y) {
      assert y in multiset(rest);
      if y != x {
        assert y in multiset(s[1..]);
        var k :| 0 <= k < |s[1..]| && s[1..][k] == y;
        assert s[k + 1] == y;
      }
    }
  }

  lemma FrontSorted(lc: (string, string) -> int, x: Item, s: seq<Item>)
    requires LocaleOrder(lc) && Sorted(lc, s)
    requires s != [] && !Before(lc, s[0], x)
    ensures Sorted(lc, [x] + s)
  {
    BeforeOrder(lc);
    forall z | z in s ensures Before(lc, x, z) {
      var k :| 0 <= k < |s| && s[k] == z;
      if k > 0 { assert Before(lc, s[0], s[k]); }
    }
    PrependSorted(lc, x, s);
  }

  lemma TailSorted(lc: (string, string) -> int, s: seq<Item>)
    requires s != [] && Sorted(lc, s)
    ensures Sorted(lc, s[1..])
  {
    forall i, j | 0 <= i < j < |s[1..]| ensures Before(lc, s[1..][i], s[1..][j]) {
      assert s[1..][i] == s[i + 1] && s[1..][j] == s[j + 1];
    }
  }

  /** Places `x` after every element of the sorted `s` that may precede it. */
  function Insert(lc: (string, string) -> int, x: Item, s: seq<Item>): (r: seq<Item>)
    requires LocaleOrder(lc) && Sorted(lc, s)
    ensures Sorted(lc, r)
    ensures multiset(r) == multiset(s) + multiset{x}
  {
    if s == [] then [x]
    else if Before(lc, s[0], x) then
      TailSorted(lc, s);
      var rest := Insert(lc, x, s[1..]);
      assert s == [s[0]] + s[1..];
      HeadBefore(lc, s, x, rest);
      PrependSorted(lc, s[0], rest);
      [s[0]] + rest
    else
      FrontSorted(lc, x, s);
      [x] + s
  }

  /** `.sort(compare)`: an insertion sort. */
  function Sort(lc: (string, string) -> int, s: seq<Item>): (r: seq<Item>)
    requires LocaleOrder(lc)
    ensures Sorted(lc, r)
    ensures multiset(r) == multiset(s)
  {
    if s == [] then []
    else
      var last := s[|s| - 1];
      assert s == s[..|s| - 1] + [last];
      Insert(lc, last, Sort(lc, s[..|s| - 1]))
  }

  /** The response body of GET /api/files for the entries `readdir` produced. */
  function List(lc: (string, string) -> int, es: seq<Entry>): seq<Item>
    requires LocaleOrder(lc)
  {
    Sort(lc, Items(Visible(es)))
  }

  // ---------------------------------------------------------------------------
  // Properties of the listing

  lemma ItemsMembers(es: seq<Entry>, x: Item)
    ensures x in Items(es) <==> exists e :: e in es && ToItem(e) == x
  {
    var r := Items(es);
    if x in r {
      var i :| 0 <= i < |r| && r[i] == x;
      assert es[i] in es && ToItem(es[i]) == x;
    }
    if exists e :: e in es && ToItem(e) == x {
      var e :| e in es && ToItem(e) == x;
      var i :| 0 <= i < |es| && es[i] == e;
      assert r[i] == x;
    }
  }

  /**
    The listing holds exactly the items of the entries whose names do not
    start with '.', one per such entry, each tagged "dir" exactly when the
    entry is a directory.
  */
  lemma ListContents(lc: (string, string) -> int, es: seq<Entry>)
    requires LocaleOrder(lc)
    ensures multiset(List(lc, es)) == multiset(Items(Visible(es)))
    ensures |List(lc, es)| == |Visible(es)|
    ensures forall x :: x in List(lc, es) ==> !Hidden(x.name)
    ensures forall x :: x in List(lc, es) <==> exists e :: e in es && !Hidden(e.name) && ToItem(e) == x
  {
    var r := List(lc, es);
    assert |r| == |Items(Visible(es))| by {
      calc {
        |r|;
        == |multiset(r)|;
        == |multiset(Items(Visible(es)))|;
        == |Items(Visible(es))|;
      }
    }
    forall x ensures x in r <==> exists e :: e in es && !Hidden(e.name) && ToItem(e) == x {
      assert x in r <==> x in multiset(r);
      assert x in Items(Visible(es)) <==> x in multiset(Items(Visible(es)));
      ItemsMembers(Visible(es), x);
    }
  }

  /** Every "dir" item precedes every "file" item, and names within one type are in `localeCompare` order. */
  lemma ListOrder(lc: (string, string) -> int, es: seq<Entry>)
    requires LocaleOrder(lc)
    ensures var r := List(lc, es);
            forall i, j :: 0 <= i < j < |r| ==>
              (r[j].kind == DirKind ==> r[i].kind == DirKind) &&
              (r[i].kind == r[j].kind ==> lc(r[i].name, r[j].name) <= 0)
  {
    var r := List(lc, es);
    forall i, j | 0 <= i < j < |r|
      ensures r[j].kind == DirKind ==> r[i].kind == DirKind
      ensures r[i].kind == r[j].kind ==> lc(r[i].name, r[j].name) <= 0
    {
      assert Before(lc, r[i], r[j]);
    }
  }

  /** No two entries of `es` share a name, as no two entries of one directory do. */
  ghost predicate DistinctNames(es: seq<Entry>) {
    forall i, j :: 0 <= i < j < |es| ==> es[i].name != es[j].name
  }

  lemma TailDistinct(es: seq<Entry>)
    requires es != [] && DistinctNames(es)
    ensures DistinctNames(es[1..])
    ensures forall e :: e in es[1..] ==> e.name != es[0].name
  {
    var tail := es[1..];
    forall i, j | 0 <= i < j < |tail| ensures tail[i].name != tail[j].name {
      assert tail[i] == es[i + 1] && tail[j] == es[j + 1];
    }
    forall e | e in tail ensures e.name != es[0].name {
      var k :| 0 <= k < |tail| && tail[k] == e;
      assert es[k + 1] == e;
    }
  }

  lemma ConsDistinct(x: Entry, rest: seq<Entry>)
    requires DistinctNames(rest)
    requires forall e :: e in rest ==> e.name != x.name
    ensures DistinctNames([x] + rest)
  {
    var v := [x] + rest;
    forall i, j | 0 <= i < j < |v| ensures v[i].name != v[j].name {
      assert v[j] == rest[j - 1];
      if i > 0 {
        assert v[i] == rest[i - 1];
      }
    }
  }

  lemma {:induction false} VisibleDistinct(es: seq<Entry>)
    requires DistinctNames(es)
    ensures DistinctNames(Visible(es))
  {
    if es != [] {
      TailDistinct(es);
      VisibleDistinct(es[1..]);
      if !Hidden(es[0].name) {
        ConsDistinct(es[0], Visible(es[1..]));
      }
    }
  }

  lemma ItemsDistinct(es: seq<Entry>)
    requires DistinctNames(es)
    ensures var s := Items(es);
            forall i, j :: 0 <= i < j < |s| ==> s[i].name != s[j].name
  {
    var s := Items(es);
    forall i, j | 0 <= i < j < |s| ensures s[i].name != s[j].name {
      assert s[i] == ToItem(es[i]) && s[j] == ToItem(es[j]);
    }
  }

  /** Items with pairwise distinct names occur at most once each. */
  lemma {:induction false} CountAtMostOne(s: seq<Item>)
    requires forall i, j :: 0 <= i < j < |s| ==> s[i].name != s[j].name
    ensures forall x :: multiset(s)[x] <= 1
  {
    if s != [] {
      CountAtMostOne(s[1..]);
      assert s == [s[0]] + s[1..];
      assert s[0] !in s[1..];
    }
  }

  lemma TwoCopies(r: seq<Item>, i: int, j: int)
    requires 0 <= i < j < |r| && r[i] == r[j]
    ensures multiset(r)[r[i]] >= 2
  {
    assert r == r[..j] + r[j..];
    assert r[i] in r[..j];
    assert r[j] in r[j..];
  }

  /** A permutation of items with distinct names has distinct names. */
  lemma PermutationDistinct(r: seq<Item>, s: seq<Item>)
    requires multiset(r) == multiset(s)
    requires forall i, j :: 0 <= i < j < |s| ==> s[i].name != s[j].name
    ensures forall i, j :: 0 <= i < j < |r| ==> r[i].name != r[j].name
  {
    CountAtMostOne(s);
    forall i, j | 0 <= i < j < |r| ensures r[i].name != r[j].name {
      if r[i] == r[j] {
        TwoCopies(r, i, j);
      } else {
        assert r[i] in multiset(s) && r[j] in multiset(s);
        var a :| 0 <= a < |s| && s[a] == r[i];
        var b :| 0 <= b < |s| && s[b] == r[j];
        assert a != b;
      }
    }
  }

  /** When `readdir`'s names are distinct, so are the names of the listing. */
  lemma ListDistinct(lc: (string, string) -> int, es: seq<Entry>)
    requires LocaleOrder(lc) && DistinctNames(es)
    ensures var r := List(lc, es);
            forall i, j :: 0 <= i < j < |r| ==> r[i].name != r[j].name
  {
    VisibleDistinct(es);
    ItemsDistinct(Visible(es));
    PermutationDistinct(List(lc, es), Items(Visible(es)));
  }
}
