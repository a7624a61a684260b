/** The static queries of `ApplianceDescription` (descr.py): which elements
    an operation entry matches, where they sit, and which of their parts it
    touches. `find_all` and `get_last` are recursions over the children and
    stay functions; `find_any`, `get_parent`, `get_xpath` and `get_next` are
    loops and are methods proved against the functions that specify them. */
module Queries {
  import opened Wrappers
  import opened Xml
  import Text

  /** Every entry of `xs` is a node of `d`. */
  predicate AllIn(d: Doc, xs: seq<Node>)
  {
    forall j :: 0 <= j < |xs| ==> xs[j] < |d|
  }

  // ---------------------------------------------------------------------
  // Document order

  /** `e.iter()` without `e`: the strict descendants of `n`, in document
      (pre-)order, starting with the subtree of child `i`. */
  function DescFrom(d: Doc, n: Node, i: nat): (r: seq<Node>)
    requires Valid(d) && n < |d| && i <= |d[n].kids|
    ensures forall j :: 0 <= j < |r| ==> n < r[j] < |d|
    decreases |d| - n, |d[n].kids| - i
  {
    if i == |d[n].kids| then []
    else
      var c := d[n].kids[i];
      [c] + DescFrom(d, c, 0) + DescFrom(d, n, i + 1)
  }

  function Desc(d: Doc, n: Node): (r: seq<Node>)
    requires Valid(d) && n < |d|
    ensures AllIn(d, r)
  {
    DescFrom(d, n, 0)
  }

  lemma {:induction false} DescFromMem(d: Doc, n: Node, i: nat, m: Node)
    requires Valid(d) && n < |d| && i <= |d[n].kids| && m < |d|
    ensures m in DescFrom(d, n, i) <==>
      exists j :: i <= j < |d[n].kids| && (m == d[n].kids[j] || Below(d, d[n].kids[j], m))
    decreases |d| - n, |d[n].kids| - i
  {
    if i < |d[n].kids| {
      var c := d[n].kids[i];
      DescFromMem(d, c, 0, m);
      DescFromMem(d, n, i + 1, m);
      BelowStep(d, c, m);
      if m in DescFrom(d, c, 0) {
        assert exists j :: 0 <= j < |d[c].kids| && (m == d[c].kids[j] || Below(d, d[c].kids[j], m));
        assert Below(d, c, m);
      }
    }
  }

  /** The descendants listed by `Desc` are exactly the nodes under `n`. */
  lemma DescMem(d: Doc, n: Node, m: Node)
    requires Valid(d) && n < |d| && m < |d|
    ensures m in Desc(d, n) <==> Below(d, n, m)
  {
    DescFromMem(d, n, 0, m);
    BelowStep(d, n, m);
  }

  // ---------------------------------------------------------------------
  // find_all

  /** The match rule of `find_all`: same tag, and attributes equal to `attrs`
      unless `attrs` is empty (Python's `not attrs`). */
  predicate Matches(d: Doc, m: Node, tag: Tag, attrs: Attrs)
    requires m < |d|
  {
    d[m].tag == tag && (attrs == map[] || d[m].attrs == attrs)
  }

  /** The entries of `xs` that match, order kept. */
  function Matching(d: Doc, xs: seq<Node>, tag: Tag, attrs: Attrs): (r: seq<Node>)
    requires AllIn(d, xs)
    ensures AllIn(d, r)
  {
    if xs == [] then []
    else (if Matches(d, xs[0], tag, attrs) then [xs[0]] else []) + Matching(d, xs[1..], tag, attrs)
  }

  lemma {:induction false} MatchingMem(d: Doc, xs: seq<Node>, tag: Tag, attrs: Attrs, m: Node)
    requires AllIn(d, xs)
    ensures m in Matching(d, xs, tag, attrs) <==> m in xs && m < |d| && Matches(d, m, tag, attrs)
  {
    if xs != [] {
      MatchingMem(d, xs[1..], tag, attrs, m);
      assert xs == [xs[0]] + xs[1..];
    }
  }

  lemma {:induction false} MatchingConcat(d: Doc, xs: seq<Node>, ys: seq<Node>, tag: Tag, attrs: Attrs)
    requires AllIn(d, xs) && AllIn(d, ys)
    ensures Matching(d, xs + ys, tag, attrs) == Matching(d, xs, tag, attrs) + Matching(d, ys, tag, attrs)
  {
    if xs != [] {
      var zs := xs + ys;
      assert zs[0] == xs[0];
      assert zs[1..] == xs[1..] + ys;
      MatchingConcat(d, xs[1..], ys, tag, attrs);
      var h := if Matches(d, xs[0], tag, attrs) then [xs[0]] else [];
      assert Matching(d, zs, tag, attrs) == h + Matching(d, xs[1..] + ys, tag, attrs);
      assert Matching(d, xs, tag, attrs) == h + Matching(d, xs[1..], tag, attrs);
    } else {
      assert xs + ys == ys;
    }
  }

  lemma MatchingThree(d: Doc, c: Node, xs: seq<Node>, ys: seq<Node>, tag: Tag, attrs: Attrs)
    requires c < |d| && AllIn(d, xs) && AllIn(d, ys)
    ensures Matching(d, [c] + xs + ys, tag, attrs)
      == (if Matches(d, c, tag, attrs) then [c] else []) + Matching(d, xs, tag, attrs) + Matching(d, ys, tag, attrs)
  {
    MatchingConcat(d, [c] + xs, ys, tag, attrs);
    MatchingConcat(d, [c], xs, tag, attrs);
    assert Matching(d, [c], tag, attrs) == (if Matches(d, c, tag, attrs) then [c] else []) + Matching(d, [], tag, attrs);
  }

  /** `find_all(name, e, attrs)` from child `i` of `e` on. */
  function FindAllFrom(d: Doc, tag: Tag, n: Node, attrs: Attrs, i: nat): (r: seq<Node>)
    requires Valid(d) && n < |d| && i <= |d[n].kids|
    ensures forall j :: 0 <= j < |r| ==> n < r[j] < |d|
    decreases |d| - n, |d[n].kids| - i
  {
    if i == |d[n].kids| then []
    else
      var c := d[n].kids[i];
      (if Matches(d, c, tag, attrs) then [c] else []) + FindAllFrom(d, tag, c, attrs, 0)
        + FindAllFrom(d, tag, n, attrs, i + 1)
  }

  function FindAll(d: Doc, tag: Tag, n: Node, attrs: Attrs): (r: seq<Node>)
    requires Valid(d) && n < |d|
    ensures AllIn(d, r)
  {
    FindAllFrom(d, tag, n, attrs, 0)
  }

  lemma {:induction false} FindAllFromIsMatching(d: Doc, tag: Tag, n: Node, attrs: Attrs, i: nat)
    requires Valid(d) && n < |d| && i <= |d[n].kids|
    ensures FindAllFrom(d, tag, n, attrs, i) == Matching(d, DescFrom(d, n, i), tag, attrs)
    decreases |d| - n, |d[n].kids| - i
  {
    if i < |d[n].kids| {
      var c := d[n].kids[i];
      FindAllFromIsMatching(d, tag, c, attrs, 0);
      FindAllFromIsMatching(d, tag, n, attrs, i + 1);
      MatchingThree(d, c, DescFrom(d, c, 0), DescFrom(d, n, i + 1), tag, attrs);
    }
  }

  /** `find_all` lists the matching strict descendants in document order. */
  lemma FindAllOrder(d: Doc, tag: Tag, n: Node, attrs: Attrs)
    requires Valid(d) && n < |d|
    ensures FindAll(d, tag, n, attrs) == Matching(d, Desc(d, n), tag, attrs)
  {
    FindAllFromIsMatching(d, tag, n, attrs, 0);
  }

  /** What `find_all` returns: the matching nodes strictly under `n`, never `n`. */
  lemma FindAllMem(d: Doc, tag: Tag, n: Node, attrs: Attrs, m: Node)
    requires Valid(d) && n < |d| && m < |d|
    ensures m in FindAll(d, tag, n, attrs) <==> Below(d, n, m) && Matches(d, m, tag, attrs)
    ensures n !in FindAll(d, tag, n, attrs)
  {
    FindAllOrder(d, tag, n, attrs);
    DescMem(d, n, m);
    MatchingMem(d, Desc(d, n), tag, attrs, m);
    DescMem(d, n, n);
    MatchingMem(d, Desc(d, n), tag, attrs, n);
  }

  /** Two nodes at or above `m` are one above the other: a node has a
      single chain of ancestors. */
  lemma {:induction false} AncestorsChain(d: Doc, a: Node, b: Node, m: Node)
    requires Valid(d) && a < |d| && b < |d| && m < |d|
    requires (m == a || Below(d, a, m)) && (m == b || Below(d, b, m))
    ensures a == b || Below(d, a, b) || Below(d, b, a)
    decreases m
  {
    if m != a && m != b {
      AncestorsChain(d, a, b, d[m].up.value);
    }
  }

  /** No node lies at or under two different children of `n`. */
  lemma SiblingsApart(d: Doc, n: Node, i: nat, j: nat, m: Node)
    requires Valid(d) && n < |d| && i < |d[n].kids| && j < |d[n].kids| && i != j && m < |d|
    requires m == d[n].kids[i] || Below(d, d[n].kids[i], m)
    ensures !(m == d[n].kids[j] || Below(d, d[n].kids[j], m))
  {
    var c, k := d[n].kids[i], d[n].kids[j];
    if m == k || Below(d, k, m) {
      AncestorsChain(d, c, k, m);
      if Below(d, c, k) {
        if n != c { BelowLess(d, c, n); }
      } else if Below(d, k, c) {
        if n != k { BelowLess(d, k, n); }
      }
    }
  }

  lemma DistinctConcat(a: seq<Node>, b: seq<Node>)
    requires Distinct(a) && Distinct(b) && forall m :: m in a ==> m !in b
    ensures Distinct(a + b)
  {
    forall i, j | 0 <= i < j < |a + b| ensures (a + b)[i] != (a + b)[j] {
      if i < |a| && |a| <= j {
        assert (a + b)[i] in a && (a + b)[j] == b[j - |a|];
      }
    }
  }

  /** `iter()` meets every node once. */
  lemma {:induction false} DescFromDistinct(d: Doc, n: Node, i: nat)
    requires Valid(d) && n < |d| && i <= |d[n].kids|
    ensures Distinct(DescFrom(d, n, i))
    decreases |d| - n, |d[n].kids| - i
  {
    if i < |d[n].kids| {
      var c := d[n].kids[i];
      KidUp(d, n, c);
      var a, b := DescFrom(d, c, 0), DescFrom(d, n, i + 1);
      DescFromDistinct(d, c, 0);
      DescFromDistinct(d, n, i + 1);
      forall m | m in [c] + a ensures m !in b {
        DescFromMem(d, c, 0, m);
        DescFromMem(d, n, i + 1, m);
        if m in b {
          var j :| i + 1 <= j < |d[n].kids| && (m == d[n].kids[j] || Below(d, d[n].kids[j], m));
          if m != c { BelowStep(d, c, m); }
          SiblingsApart(d, n, i, j, m);
        }
      }
      DistinctConcat([c], a);
      DistinctConcat([c] + a, b);
    }
  }

  lemma {:induction false} MatchingDistinct(d: Doc, xs: seq<Node>, tag: Tag, attrs: Attrs)
    requires AllIn(d, xs) && Distinct(xs)
    ensures Distinct(Matching(d, xs, tag, attrs))
  {
    if xs != [] {
      MatchingDistinct(d, xs[1..], tag, attrs);
      MatchingMem(d, xs[1..], tag, attrs, xs[0]);
      var h := if Matches(d, xs[0], tag, attrs) then [xs[0]] else [];
      DistinctConcat(h, Matching(d, xs[1..], tag, attrs));
    }
  }

  /** `find_all` lists every node at most once. */
  lemma FindAllDistinct(d: Doc, tag: Tag, n: Node, attrs: Attrs)
    requires Valid(d) && n < |d|
    ensures Distinct(FindAll(d, tag, n, attrs))
  {
    FindAllOrder(d, tag, n, attrs);
    DescFromDistinct(d, n, 0);
    MatchingDistinct(d, Desc(d, n), tag, attrs);
  }

  /** Everything `find_all` lists carries the tag searched for. */
  lemma FindAllTagged(d: Doc, tag: Tag, attrs: Attrs)
    requires Valid(d)
    ensures forall j :: 0 <= j < |FindAll(d, tag, 0, attrs)| ==> d[FindAll(d, tag, 0, attrs)[j]].tag == tag
  {
    var l := FindAll(d, tag, 0, attrs);
    forall j | 0 <= j < |l| ensures d[l[j]].tag == tag {
      FindAllMem(d, tag, 0, attrs, l[j]);
    }
  }

  // ---------------------------------------------------------------------
  // find_any

  /** Every pair of `want` is among `have`: extra attributes are allowed. */
  predicate Glob(want: Attrs, have: Attrs)
  {
    forall k :: k in want ==> k in have && have[k] == want[k]
  }

  /** The elements `find_any` collects. */
  ghost function AnyMatches(d: Doc, tag: Tag, n: Node, attrs: Attrs): set<Node>
    requires Valid(d) && n < |d|
  {
    set m | m in FindAll(d, tag, n, map[]) && m < |d| && Glob(attrs, d[m].attrs)
  }

  /** `find_any(name, e, attrs)`: every same-tag element under `e` whose
      attributes contain every pair of `attrs`. */
  method FindAny(d: Doc, tag: Tag, n: Node, attrs: Attrs) returns (nodes: set<Node>)
    requires Valid(d) && n < |d|
    ensures nodes == AnyMatches(d, tag, n, attrs)
  {
    var all := FindAll(d, tag, n, map[]);
    nodes := {};
    var i := 0;
    while i < |all|
      invariant 0 <= i <= |all|
      invariant nodes == set m | m in all[..i] && m < |d| && Glob(attrs, d[m].attrs)
    {
      var node := all[i];
      var matches := true;
      var keys := attrs.Keys;
      while keys != {} && matches
        invariant keys <= attrs.Keys
        invariant matches ==> forall k :: k in attrs.Keys - keys ==> k in d[node].attrs && d[node].attrs[k] == attrs[k]
        invariant !matches ==> !Glob(attrs, d[node].attrs)
        decreases |keys|
      {
        var k :| k in keys;
        if k !in d[node].attrs || d[node].attrs[k] != attrs[k] {
          matches := false;
        }
        keys := keys - {k};
      }
      assert matches == Glob(attrs, d[node].attrs);
      assert all[..i + 1] == all[..i] + [node];
      if matches {
        nodes := nodes + {node};
      }
      i := i + 1;
    }
    assert all[..i] == all;
  }

  lemma AnyMatchesMem(d: Doc, tag: Tag, n: Node, attrs: Attrs, m: Node)
    requires Valid(d) && n < |d| && m < |d|
    ensures m in AnyMatches(d, tag, n, attrs) <==> Below(d, n, m) && d[m].tag == tag && Glob(attrs, d[m].attrs)
  {
    FindAllMem(d, tag, n, map[], m);
  }

  /** Fewer attributes in the pattern match more elements. */
  lemma AnyMatchesWider(d: Doc, tag: Tag, n: Node, narrow: Attrs, wide: Attrs)
    requires Valid(d) && n < |d| && narrow.Keys <= wide.Keys
    requires forall k :: k in narrow ==> narrow[k] == wide[k]
    ensures AnyMatches(d, tag, n, wide) <= AnyMatches(d, tag, n, narrow)
  {
  }

  /** Every node `AnyMatches` yields is in the tree under `n`. */
  lemma AnyMatchesIn(d: Doc, tag: Tag, n: Node, attrs: Attrs)
    requires Valid(d) && n < |d|
    ensures forall m :: m in AnyMatches(d, tag, n, attrs) ==> m < |d| && Below(d, n, m)
  {
    forall m | m in AnyMatches(d, tag, n, attrs) ensures m < |d| && Below(d, n, m) {
      AnyMatchesMem(d, tag, n, attrs, m);
    }
  }

  // ---------------------------------------------------------------------
  // get_parent

  /** `get_parent(tree, e)`: the first node of `tree.iter()` that has `e`
      among its children. It finds the parent only while `e` is in `tree`. */
  method GetParent(d: Doc, t: Node, e: Node) returns (p: Option<Node>)
    requires Valid(d) && t < |d| && e < |d|
    ensures p == if Below(d, t, e) then d[e].up else None
  {
    var items := [t] + Desc(d, t);
    var i := 0;
    while i < |items|
      invariant 0 <= i <= |items|
      invariant forall j :: 0 <= j < i ==> e !in d[items[j]].kids
    {
      var itm := items[i];
      var kids := d[itm].kids;
      var k := 0;
      while k < |kids|
        invariant 0 <= k <= |kids|
        invariant forall j :: 0 <= j < k ==> kids[j] != e
      {
        if kids[k] == e {
          KidUp(d, itm, e);
          if itm != t {
            DescMem(d, t, itm);
            BelowTrans(d, t, itm, e);
          }
          return Some(itm);
        }
        k := k + 1;
      }
      i := i + 1;
    }
    if Below(d, t, e) {
      ParentListed(d, t, e);
      assert false;
    }
    return None;
  }

  lemma ParentListed(d: Doc, t: Node, e: Node)
    requires Valid(d) && t < |d| && e < |d| && Below(d, t, e)
    ensures d[e].up.Some? && d[e].up.value in [t] + Desc(d, t) && e in d[d[e].up.value].kids
  {
    var q := d[e].up.value;
    if q != t {
      DescMem(d, t, q);
    }
  }

  /** The value `get_parent(tree, e)` returns, for the specifications. */
  ghost function ParentIn(d: Doc, t: Node, e: Node): Option<Node>
    requires Valid(d) && t < |d| && e < |d|
  {
    if Below(d, t, e) then d[e].up else None
  }

  // ---------------------------------------------------------------------
  // get_xpath

  /** The tags from the top of the tree containing `e` down to `e`. */
  function PathTags(d: Doc, e: Node): (r: seq<string>)
    requires Valid(d) && e < |d| && d[e].tag.Elem?
    ensures |r| > 0 && r[|r| - 1] == d[e].tag.name
    decreases e
  {
    if d[e].up.Some? then
      var p := d[e].up.value;
      KidUp(d, p, e);
      PathTags(d, p) + [d[e].tag.name]
    else [d[e].tag.name]
  }

  function XPathOf(d: Doc, e: Node): string
    requires Valid(d) && e < |d| && d[e].tag.Elem?
  {
    "/" + Text.Join(PathTags(d, e), "/")
  }

  /** `get_xpath(e)`: climbs parent links and prefixes each tag. */
  method GetXPath(d: Doc, e: Node) returns (s: string)
    requires Valid(d) && e < |d| && d[e].tag.Elem?
    ensures s == XPathOf(d, e)
  {
    var path := [d[e].tag.name];
    var parent := e;
    while d[parent].up.Some?
      invariant parent < |d| && d[parent].tag.Elem?
      invariant PathTags(d, e) == Above(d, parent) + path
      decreases parent
    {
      var q := d[parent].up.value;
      AboveStep(d, parent, path);
      parent := q;
      path := [d[parent].tag.name] + path;
    }
    assert [] + path == path;
    s := "/" + Text.Join(path, "/");
  }

  /** The path segments strictly above `e`. */
  ghost function Above(d: Doc, e: Node): seq<string>
    requires Valid(d) && e < |d|
  {
    if d[e].up.Some? then (KidUp(d, d[e].up.value, e); PathTags(d, d[e].up.value)) else []
  }

  lemma AboveStep(d: Doc, e: Node, path: seq<string>)
    requires Valid(d) && e < |d| && d[e].up.Some?
    ensures d[e].up.value < e && d[d[e].up.value].tag.Elem?
    ensures Above(d, e) + path == Above(d, d[e].up.value) + ([d[d[e].up.value].tag.name] + path)
  {
    var q := d[e].up.value;
    KidUp(d, q, e);
    assert PathTags(d, q) == Above(d, q) + [d[q].tag.name];
  }

  /** A path only depends on the parent links and tags of the nodes up to `e`. */
  lemma {:induction false} PathTagsFrame(d: Doc, r: Doc, e: Node)
    requires Valid(d) && Valid(r) && e < |d| && e < |r| && d[e].tag.Elem?
    requires forall y :: 0 <= y <= e ==> r[y].up == d[y].up && r[y].tag == d[y].tag
    ensures r[e].tag.Elem? && PathTags(r, e) == PathTags(d, e)
    decreases e
  {
    if d[e].up.Some? {
      var p := d[e].up.value;
      KidUp(d, p, e);
      PathTagsFrame(d, r, p);
    }
  }

  /** The path of a node in the tree starts at the root. */
  lemma {:induction false} PathTagsRoot(d: Doc, e: Node)
    requires Valid(d) && e < |d| && d[e].tag.Elem? && Live(d, e) && d[0].tag.Elem?
    ensures PathTags(d, e)[0] == d[0].tag.name
    decreases e
  {
    if e != 0 {
      var p := d[e].up.value;
      KidUp(d, p, e);
      if p != 0 {
        PathTagsRoot(d, p);
      }
    }
  }

  /** Element names never contain the path separator (XML names cannot). */
  ghost predicate SlashFree(d: Doc)
  {
    forall n :: 0 <= n < |d| && d[n].tag.Elem? ==> '/' !in d[n].tag.name
  }

  lemma {:induction false} PathTagsFree(d: Doc, e: Node)
    requires Valid(d) && e < |d| && d[e].tag.Elem? && SlashFree(d)
    ensures Text.FreeOf(PathTags(d, e), '/')
    decreases e
  {
    if d[e].up.Some? {
      var p := d[e].up.value;
      KidUp(d, p, e);
      PathTagsFree(d, p);
    }
  }

  /** The path segments other than `frame`. */
  function Drop(xs: seq<string>, frame: string): (r: seq<string>)
    ensures forall x :: x in r <==> x in xs && x != frame
    ensures Text.FreeOf(xs, '/') ==> Text.FreeOf(r, '/')
  {
    if xs == [] then []
    else
      assert xs == [xs[0]] + xs[1..];
      (if xs[0] == frame then [] else [xs[0]]) + Drop(xs[1..], frame)
  }

  /** `"/".join([x for x in path.split("/") if x != frame])`. */
  function StripFrame(path: string, frame: string): string
  {
    Text.Join(Drop(Text.Split(path, '/'), frame), "/")
  }

  lemma JoinCons(x: string, ys: seq<string>, sep: string)
    requires |ys| > 0
    ensures Text.Join([x] + ys, sep) == x + sep + Text.Join(ys, sep)
  {
    assert ([x] + ys)[1..] == ys;
  }

  /** Dropping the marker segment from the entry's path and comparing with a
      target's path is comparing the tag lists. */
  lemma PathMatch(s: Doc, x: Node, t: Doc, y: Node, frame: string)
    requires Valid(s) && x < |s| && s[x].tag.Elem? && SlashFree(s)
    requires Valid(t) && y < |t| && t[y].tag.Elem? && SlashFree(t)
    requires frame != ""
    ensures StripFrame(XPathOf(s, x), frame) == XPathOf(t, y) <==> Drop(PathTags(s, x), frame) == PathTags(t, y)
  {
    var a := PathTags(s, x);
    var b := PathTags(t, y);
    PathTagsFree(s, x);
    PathTagsFree(t, y);
    JoinCons("", a, "/");
    assert XPathOf(s, x) == Text.Join([""] + a, "/");
    assert Text.FreeOf([""] + a, '/') by {
      forall i | 0 <= i < |[""] + a| ensures '/' !in ([""] + a)[i] {
        if i > 0 { assert ([""] + a)[i] == a[i - 1]; }
      }
    }
    Text.SplitJoin([""] + a, '/');
    var da := Drop(a, frame);
    assert Drop([""] + a, frame) == [""] + da by {
      assert ([""] + a)[1..] == a;
    }
    if da == [] {
      assert StripFrame(XPathOf(s, x), frame) == "";
    } else {
      JoinCons("", da, "/");
      Text.JoinInjective(da, b, '/');
      assert ("/" + Text.Join(da, "/") == "/" + Text.Join(b, "/")) == (Text.Join(da, "/") == Text.Join(b, "/")) by {
        if "/" + Text.Join(da, "/") == "/" + Text.Join(b, "/") {
          assert Text.Join(da, "/") == ("/" + Text.Join(da, "/"))[1..];
        }
      }
    }
  }

  /** The path `get_xpath` builds splits at `/` back into an empty first
      segment followed by the tags from the root down to `e`. */
  lemma XPathSplit(d: Doc, e: Node)
    requires Valid(d) && e < |d| && d[e].tag.Elem? && SlashFree(d)
    ensures Text.Split(XPathOf(d, e), '/') == [""] + PathTags(d, e)
  {
    var a := PathTags(d, e);
    PathTagsFree(d, e);
    JoinCons("", a, "/");
    assert Text.FreeOf([""] + a, '/') by {
      forall i | 0 <= i < |[""] + a| ensures '/' !in ([""] + a)[i] {
        if i > 0 { assert ([""] + a)[i] == a[i - 1]; }
      }
    }
    Text.SplitJoin([""] + a, '/');
  }

  // ---------------------------------------------------------------------
  // get_last and get_next

  /** The entries of `xs` without children, order kept. */
  function Leaves(d: Doc, xs: seq<Node>): (r: seq<Node>)
    requires AllIn(d, xs)
    ensures AllIn(d, r)
  {
    if xs == [] then []
    else (if d[xs[0]].kids == [] then [xs[0]] else []) + Leaves(d, xs[1..])
  }

  lemma {:induction false} LeavesMem(d: Doc, xs: seq<Node>, m: Node)
    requires AllIn(d, xs)
    ensures m in Leaves(d, xs) <==> m in xs && m < |d| && d[m].kids == []
  {
    if xs != [] {
      LeavesMem(d, xs[1..], m);
      assert xs == [xs[0]] + xs[1..];
    }
  }

  lemma {:induction false} LeavesConcat(d: Doc, xs: seq<Node>, ys: seq<Node>)
    requires AllIn(d, xs) && AllIn(d, ys)
    ensures Leaves(d, xs + ys) == Leaves(d, xs) + Leaves(d, ys)
  {
    if xs != [] {
      assert (xs + ys)[1..] == xs[1..] + ys;
      LeavesConcat(d, xs[1..], ys);
    } else {
      assert xs + ys == ys;
    }
  }

  /** `get_last(e)`: the leaves under `e`, or `[e]` when `e` has no children. */
  function GetLast(d: Doc, n: Node): seq<Node>
    requires Valid(d) && n < |d|
    decreases |d| - n, 1
  {
    if |d[n].kids| > 0 then LastFrom(d, n, 0) else [n]
  }

  function LastFrom(d: Doc, n: Node, i: nat): seq<Node>
    requires Valid(d) && n < |d| && i <= |d[n].kids|
    decreases |d| - n, 0, |d[n].kids| - i
  {
    if i == |d[n].kids| then [] else GetLast(d, d[n].kids[i]) + LastFrom(d, n, i + 1)
  }

  lemma {:induction false} LastFromIsLeaves(d: Doc, n: Node, i: nat)
    requires Valid(d) && n < |d| && i <= |d[n].kids|
    ensures LastFrom(d, n, i) == Leaves(d, DescFrom(d, n, i))
    decreases |d| - n, |d[n].kids| - i
  {
    if i < |d[n].kids| {
      var c := d[n].kids[i];
      var a, b := DescFrom(d, c, 0), DescFrom(d, n, i + 1);
      assert DescFrom(d, n, i) == [c] + a + b;
      assert LastFrom(d, n, i) == GetLast(d, c) + LastFrom(d, n, i + 1);
      LastFromIsLeaves(d, n, i + 1);
      LeavesCons(d, c, a, b);
      if |d[c].kids| > 0 {
        LastFromIsLeaves(d, c, 0);
      } else {
        assert a == [];
      }
    }
  }

  lemma LeavesCons(d: Doc, c: Node, a: seq<Node>, b: seq<Node>)
    requires c < |d| && AllIn(d, a) && AllIn(d, b)
    ensures Leaves(d, [c] + a + b) == (if d[c].kids == [] then [c] else []) + Leaves(d, a) + Leaves(d, b)
  {
    LeavesConcat(d, [c] + a, b);
    LeavesConcat(d, [c], a);
    assert Leaves(d, [c]) == (if d[c].kids == [] then [c] else []) + Leaves(d, []);
  }

  /** `get_last` in document order: the childless descendants of `n`. */
  lemma GetLastOrder(d: Doc, n: Node)
    requires Valid(d) && n < |d|
    ensures |d[n].kids| > 0 ==> GetLast(d, n) == Leaves(d, Desc(d, n))
    ensures |d[n].kids| == 0 ==> GetLast(d, n) == [n]
  {
    if |d[n].kids| > 0 {
      LastFromIsLeaves(d, n, 0);
    }
  }

  lemma GetLastMem(d: Doc, n: Node, m: Node)
    requires Valid(d) && n < |d| && m < |d|
    ensures m in GetLast(d, n) <==>
      if d[n].kids == [] then m == n else Below(d, n, m) && d[m].kids == []
  {
    GetLastOrder(d, n);
    DescMem(d, n, m);
    LeavesMem(d, Desc(d, n), m);
  }

  lemma GetLastIn(d: Doc, n: Node)
    requires Valid(d) && n < |d|
    ensures AllIn(d, GetLast(d, n))
  {
    GetLastOrder(d, n);
  }

  /** The first child of `n` that is not a comment. */
  function FirstElement(d: Doc, ks: seq<Node>): (r: Option<Node>)
    requires AllIn(d, ks)
    ensures r.Some? ==> r.value in ks && d[r.value].tag.Elem?
    ensures r.None? <==> forall j :: 0 <= j < |ks| ==> d[ks[j]].tag == Comment
  {
    if ks == [] then None
    else if d[ks[0]].tag.Elem? then Some(ks[0])
    else
      var r := FirstElement(d, ks[1..]);
      assert forall j :: 1 <= j < |ks| ==> ks[j] == ks[1..][j - 1];
      r
  }

  lemma KidsIn(d: Doc, n: Node)
    requires Valid(d) && n < |d|
    ensures AllIn(d, d[n].kids)
  {
  }

  /** `get_next(e)`: the first non-comment child, skipping comments. */
  method GetNext(d: Doc, n: Node) returns (r: Option<Node>)
    requires Valid(d) && n < |d|
    ensures AllIn(d, d[n].kids) && r == FirstElement(d, d[n].kids)
  {
    var ks := d[n].kids;
    KidsIn(d, n);
    var i := 0;
    while i < |ks|
      invariant 0 <= i <= |ks|
      invariant FirstElement(d, ks) == FirstElement(d, ks[i..])
    {
      assert ks[i..][1..] == ks[i + 1..];
      if d[ks[i]].tag.Elem? {
        return Some(ks[i]);
      }
      i := i + 1;
    }
    return None;
  }

  /** What `get_next` picks: the first child that is an element. */
  lemma {:induction false} FirstElementIsFirst(d: Doc, ks: seq<Node>)
    requires AllIn(d, ks) && FirstElement(d, ks).Some?
    ensures exists i ::
      0 <= i < |ks| && ks[i] == FirstElement(d, ks).value && (forall j :: 0 <= j < i ==> d[ks[j]].tag == Comment)
  {
    if d[ks[0]].tag.Comment? {
      FirstElementIsFirst(d, ks[1..]);
      var i :| 0 <= i < |ks[1..]| && ks[1..][i] == FirstElement(d, ks[1..]).value
        && (forall j :: 0 <= j < i ==> d[ks[1..][j]].tag == Comment);
      assert ks[i + 1] == FirstElement(d, ks).value;
      forall j | 0 <= j < i + 1 ensures d[ks[j]].tag == Comment {
        if j > 0 { assert ks[j] == ks[1..][j - 1]; }
      }
    } else {
      assert ks[0] == FirstElement(d, ks).value;
    }
  }
}
