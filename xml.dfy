/** The element trees the description engine edits, as lxml keeps them: every
    element has one tag, an attribute dictionary, an optional text, an ordered
    list of children and at most one parent. A document is an arena of cells
    indexed by node id; node 0 is the root and a child always has a larger id
    than its parent, so walking down or up a tree always terminates.

    The operations below are the three lxml mutators the engine uses:
    `parent.append(node)` for a node of another document (the subtree is
    moved, modelled as a fresh copy at the end of the target arena),
    `parent.append(node)` for a detached node of the same document, and
    `parent.remove(node)`. A detached node keeps its cell and its subtree, as an
    lxml element that is no longer referenced by the tree does. */
module Xml {
  import opened Wrappers

  type Node = nat
  type Attrs = map<string, string>

  /** An element with its tag name, or an XML comment (`ET._Comment`). */
  datatype Tag = Elem(name: string) | Comment

  datatype Cell = Cell(tag: Tag, attrs: Attrs, text: Option<string>, kids: seq<Node>, up: Option<Node>)

  type Doc = seq<Cell>

  predicate Distinct(ks: seq<Node>)
  {
    forall i, j :: 0 <= i < j < |ks| ==> ks[i] != ks[j]
  }

  /** Every child lies after its parent and points back to it. */
  ghost predicate KidsOk(d: Doc)
  {
    forall n, i :: 0 <= n < |d| && 0 <= i < |d[n].kids| ==>
      n < d[n].kids[i] < |d| && d[d[n].kids[i]].up == Some(n)
  }

  /** Every parent link is matched by a child entry. */
  ghost predicate UpOk(d: Doc)
  {
    forall m :: 0 <= m < |d| && d[m].up.Some? ==> d[m].up.value < m && m in d[d[m].up.value].kids
  }

  /** A child appears once; a comment has neither children nor attributes. */
  ghost predicate CellsOk(d: Doc)
  {
    forall n :: 0 <= n < |d| ==>
      Distinct(d[n].kids) && (d[n].tag == Comment ==> d[n].kids == [] && d[n].attrs == map[])
  }

  ghost predicate Valid(d: Doc)
  {
    |d| > 0 && d[0].up == None && KidsOk(d) && UpOk(d) && CellsOk(d)
  }

  /** The kind of cell `AddNode` may create. */
  predicate Fits(tag: Tag, attrs: Attrs)
  {
    tag == Comment ==> attrs == map[]
  }

  /** `ks` without the members of `gone`, order kept. */
  function Without(ks: seq<Node>, gone: set<Node>): (r: seq<Node>)
    ensures forall k :: k in r <==> k in ks && k !in gone
    ensures |r| <= |ks|
    ensures Distinct(ks) ==> Distinct(r)
  {
    if ks == [] then []
    else
      var rest := Without(ks[1..], gone);
      assert forall k :: k in ks[1..] ==> k in ks;
      if ks[0] in gone then rest
      else
        assert ks == [ks[0]] + ks[1..];
        [ks[0]] + rest
  }

  lemma {:induction false} WithoutTwice(ks: seq<Node>, a: set<Node>, b: set<Node>)
    ensures Without(Without(ks, a), b) == Without(ks, a + b)
  {
    if ks != [] {
      WithoutTwice(ks[1..], a, b);
    }
  }

  /** Removing the first of distinct children leaves the others. */
  lemma WithoutFirst(ks: seq<Node>)
    requires ks != [] && Distinct(ks)
    ensures Without(ks, {ks[0]}) == ks[1..]
  {
    WithoutNone(ks[1..], {ks[0]});
  }

  lemma {:induction false} WithoutNone(ks: seq<Node>, gone: set<Node>)
    requires forall k :: k in ks ==> k !in gone
    ensures Without(ks, gone) == ks
  {
    if ks != [] {
      WithoutNone(ks[1..], gone);
      assert ks == [ks[0]] + ks[1..];
    }
  }

  /** A new cell under the element `p`, as its last child; its id is `|d|`. */
  function AddNode(d: Doc, p: Node, tag: Tag, attrs: Attrs, text: Option<string>): (r: Doc)
    requires Valid(d) && p < |d| && d[p].tag.Elem? && Fits(tag, attrs)
    ensures Valid(r) && |r| == |d| + 1
    ensures r[|d|] == Cell(tag, attrs, text, [], Some(p))
    ensures r[p] == d[p].(kids := d[p].kids + [|d|])
    ensures forall x :: 0 <= x < |d| && x != p ==> r[x] == d[x]
  {
    var r := d[p := d[p].(kids := d[p].kids + [|d|])] + [Cell(tag, attrs, text, [], Some(p))];
    assert |r| == |d| + 1 && r[|d|] == Cell(tag, attrs, text, [], Some(p));
    assert r[p] == d[p].(kids := d[p].kids + [|d|]);
    assert forall x :: 0 <= x < |d| && x != p ==> r[x] == d[x];
    assert UpOk(r) by {
      forall m | 0 <= m < |r| && r[m].up.Some? ensures r[m].up.value < m && m in r[r[m].up.value].kids {
        if m < |d| {
          var q := d[m].up.value;
          assert m in d[q].kids;
          assert d[q].kids <= r[q].kids;
        }
      }
    }
    assert KidsOk(r) by {
      forall n, i | 0 <= n < |r| && 0 <= i < |r[n].kids|
        ensures n < r[n].kids[i] < |r| && r[r[n].kids[i]].up == Some(n)
      {
        if n == p && i == |d[p].kids| {
        } else {
          assert r[n].kids[i] == d[n].kids[i];
        }
      }
    }
    assert CellsOk(r) by {
      forall n | 0 <= n < |r| ensures Distinct(r[n].kids) {
        if n == p {
          forall i | 0 <= i < |d[p].kids| ensures d[p].kids[i] < |d| { }
        }
      }
    }
    r
  }

  /** `parent.remove(t)` on the parent of `t`: `t` and its subtree stay in the
      arena, unattached. */
  function Detach(d: Doc, t: Node): (r: Doc)
    requires Valid(d) && t < |d| && d[t].up.Some?
    ensures Valid(r) && |r| == |d|
    ensures r[t] == d[t].(up := None)
    ensures var p := d[t].up.value; r[p] == d[p].(kids := Without(d[p].kids, {t}))
    ensures forall x :: 0 <= x < |d| && x != t && x != d[t].up.value ==> r[x] == d[x]
  {
    var p := d[t].up.value;
    var r := d[p := d[p].(kids := Without(d[p].kids, {t}))][t := d[t].(up := None)];
    assert KidsOk(r) by {
      forall n, i | 0 <= n < |r| && 0 <= i < |r[n].kids|
        ensures n < r[n].kids[i] < |r| && r[r[n].kids[i]].up == Some(n)
      {
        var k := r[n].kids[i];
        assert k in d[n].kids;
        assert k != t;
      }
    }
    r
  }

  /** `p.append(x)` for a detached node `x` of the same document; `p < x`
      guarantees that `p` is not inside the subtree of `x`. */
  function Attach(d: Doc, p: Node, x: Node): (r: Doc)
    requires Valid(d) && p < x < |d| && d[x].up == None && d[p].tag.Elem?
    ensures Valid(r) && |r| == |d|
    ensures r[x] == d[x].(up := Some(p))
    ensures r[p] == d[p].(kids := d[p].kids + [x])
    ensures forall y :: 0 <= y < |d| && y != x && y != p ==> r[y] == d[y]
  {
    assert x !in d[p].kids;
    var r := d[p := d[p].(kids := d[p].kids + [x])][x := d[x].(up := Some(p))];
    assert KidsOk(r) by {
      forall n, i | 0 <= n < |r| && 0 <= i < |r[n].kids|
        ensures n < r[n].kids[i] < |r| && r[r[n].kids[i]].up == Some(n)
      {
        if n == p && i == |d[p].kids| {
        } else {
          assert r[n].kids[i] == d[n].kids[i];
        }
      }
    }
    r
  }

  /** `p.append(x)` for a node that may currently have a parent: lxml first
      unlinks it. */
  function MoveWithin(d: Doc, p: Node, x: Node): (r: Doc)
    requires Valid(d) && p < x < |d| && d[p].tag.Elem?
    ensures Valid(r) && |r| == |d|
    ensures r[x] == d[x].(up := Some(p))
    ensures r[p] == d[p].(kids := Without(d[p].kids, {x}) + [x])
    ensures d[x].up.Some? && d[x].up.value != p ==>
      var q := d[x].up.value; r[q] == d[q].(kids := Without(d[q].kids, {x}))
    ensures forall y :: 0 <= y < |d| && y != x && y != p && Some(y) != d[x].up ==> r[y] == d[y]
  {
    if d[x].up.Some? then
      var d1 := Detach(d, x);
      assert d1[p].kids == Without(d[p].kids, {x}) by {
        if d[x].up.value != p {
          WithoutNone(d[p].kids, {x});
        }
      }
      Attach(d1, p, x)
    else
      assert x !in d[p].kids;
      WithoutNone(d[p].kids, {x});
      Attach(d, p, x)
  }

  /** `e.set(k, v)` for every pair of `m`: the other attributes are kept. */
  function SetAttrs(d: Doc, n: Node, m: Attrs): (r: Doc)
    requires Valid(d) && n < |d| && d[n].tag.Elem?
    ensures Valid(r) && |r| == |d|
    ensures r[n] == d[n].(attrs := d[n].attrs + m)
    ensures forall x :: 0 <= x < |d| && x != n ==> r[x] == d[x]
  {
    d[n := d[n].(attrs := d[n].attrs + m)]
  }

  // ---------------------------------------------------------------------
  // Ancestry and membership of the tree

  /** `a` is a proper ancestor of `m` along parent links. */
  ghost predicate Below(d: Doc, a: Node, m: Node)
    requires Valid(d) && m < |d|
    decreases m
  {
    d[m].up.Some? && (d[m].up.value == a || Below(d, a, d[m].up.value))
  }

  /** `m` is part of the tree: the root or a node under it. */
  ghost predicate Live(d: Doc, m: Node)
    requires Valid(d) && m < |d|
  {
    m == 0 || Below(d, 0, m)
  }

  lemma {:induction false} BelowLess(d: Doc, a: Node, m: Node)
    requires Valid(d) && m < |d| && Below(d, a, m)
    ensures a < m
    decreases m
  {
    var p := d[m].up.value;
    if p != a {
      BelowLess(d, a, p);
    }
  }

  lemma {:induction false} BelowTrans(d: Doc, a: Node, b: Node, m: Node)
    requires Valid(d) && b < |d| && m < |d| && Below(d, a, b) && Below(d, b, m)
    ensures Below(d, a, m)
    decreases m
  {
    var p := d[m].up.value;
    if p != b {
      BelowTrans(d, a, b, p);
    }
  }

  /** Child entries are parent links seen from above. */
  lemma KidUp(d: Doc, n: Node, k: Node)
    requires Valid(d) && n < |d| && k in d[n].kids
    ensures k < |d| && d[k].up == Some(n) && n < k
  {
    var i :| 0 <= i < |d[n].kids| && d[n].kids[i] == k;
  }

  /** Ancestry seen from above: `m` is under `n` iff it is a child of `n` or
      under one. */
  lemma BelowStep(d: Doc, n: Node, m: Node)
    requires Valid(d) && n < |d| && m < |d|
    ensures Below(d, n, m) <==>
      exists i :: 0 <= i < |d[n].kids| && (m == d[n].kids[i] || Below(d, d[n].kids[i], m))
  {
    if Below(d, n, m) {
      BelowStepDown(d, n, m);
    }
    if exists i :: 0 <= i < |d[n].kids| && (m == d[n].kids[i] || Below(d, d[n].kids[i], m)) {
      var i :| 0 <= i < |d[n].kids| && (m == d[n].kids[i] || Below(d, d[n].kids[i], m));
      var k := d[n].kids[i];
      if m != k {
        BelowTrans(d, n, k, m);
      }
    }
  }

  lemma {:induction false} BelowStepDown(d: Doc, n: Node, m: Node)
    requires Valid(d) && n < |d| && m < |d| && Below(d, n, m)
    ensures exists i :: 0 <= i < |d[n].kids| && (m == d[n].kids[i] || Below(d, d[n].kids[i], m))
    decreases m
  {
    var p := d[m].up.value;
    if p == n {
      var i :| 0 <= i < |d[n].kids| && d[n].kids[i] == m;
    } else {
      BelowStepDown(d, n, p);
      var i :| 0 <= i < |d[n].kids| && (p == d[n].kids[i] || Below(d, d[n].kids[i], p));
    }
  }

  /** Ancestry of `m` depends only on the parent links of `m` and the nodes
      before it. */
  lemma {:induction false} BelowFrame(d: Doc, r: Doc, a: Node, m: Node)
    requires Valid(d) && Valid(r) && m < |d| && m < |r|
    requires forall x :: 0 <= x <= m ==> r[x].up == d[x].up
    ensures Below(r, a, m) == Below(d, a, m)
    decreases m
  {
    if d[m].up.Some? && d[m].up.value != a {
      BelowFrame(d, r, a, d[m].up.value);
    }
  }

  lemma LiveFrame(d: Doc, r: Doc, m: Node)
    requires Valid(d) && Valid(r) && m < |d| && m < |r|
    requires forall x :: 0 <= x <= m ==> r[x].up == d[x].up
    ensures Live(r, m) == Live(d, m)
  {
    BelowFrame(d, r, 0, m);
  }

  /** `r` only cut parent links of `d`. */
  ghost predicate Cut(d: Doc, r: Doc)
  {
    |r| == |d| && forall x :: 0 <= x < |d| ==> r[x].up == d[x].up || r[x].up == None
  }

  lemma CutTrans(a: Doc, b: Doc, c: Doc)
    requires Cut(a, b) && Cut(b, c)
    ensures Cut(a, c)
  {
  }

  /** Cutting links never makes a node live. */
  lemma {:induction false} BelowCut(d: Doc, r: Doc, a: Node, m: Node)
    requires Valid(d) && Valid(r) && Cut(d, r) && m < |d| && Below(r, a, m)
    ensures Below(d, a, m)
    decreases m
  {
    if r[m].up.value != a {
      BelowCut(d, r, a, r[m].up.value);
    }
  }

  /** The same for a document that also grew: only the links of the first
      `n` nodes matter for a node before `n`. */
  lemma {:induction false} BelowCutBefore(d: Doc, r: Doc, n: nat, a: Node, m: Node)
    requires Valid(d) && Valid(r) && m < n <= |d| && n <= |r|
    requires forall y :: 0 <= y < n ==> r[y].up == d[y].up || r[y].up == None
    requires Below(r, a, m)
    ensures Below(d, a, m)
    decreases m
  {
    if r[m].up.value != a {
      BelowCutBefore(d, r, n, a, r[m].up.value);
    }
  }

  /** A node stays linked to `a` when no link on its way up was cut. */
  lemma {:induction false} BelowUncut(d: Doc, r: Doc, a: Node, m: Node)
    requires Valid(d) && Valid(r) && Cut(d, r) && m < |d| && Below(d, a, m)
    requires r[m].up == d[m].up
    requires forall y :: 0 <= y < |d| && Below(d, y, m) && Below(d, a, y) ==> r[y].up == d[y].up
    ensures Below(r, a, m)
    decreases m
  {
    var p := d[m].up.value;
    if p != a {
      forall y | 0 <= y < |d| && Below(d, y, p) && Below(d, a, y) ensures r[y].up == d[y].up {
        BelowTrans(d, y, p, m);
      }
      BelowUncut(d, r, a, p);
    }
  }

  /** After `t.getparent().remove(t)`, exactly `t` and its subtree left the tree. */
  lemma LiveAfterDetach(d: Doc, t: Node, m: Node)
    requires Valid(d) && t < |d| && d[t].up.Some? && m < |d|
    ensures Live(Detach(d, t), m) <==> Live(d, m) && m != t && !Below(d, t, m)
  {
    var r := Detach(d, t);
    assert Cut(d, r);
    if Live(r, m) {
      if m != 0 {
        BelowCut(d, r, 0, m);
        if Below(d, t, m) {
          BelowIntoCut(d, r, t, m);
        }
      }
    }
    if Live(d, m) && m != t && !Below(d, t, m) && m != 0 {
      assert forall y :: 0 <= y < |d| && Below(d, y, m) && Below(d, 0, y) ==> r[y].up == d[y].up;
      BelowUncut(d, r, 0, m);
    }
  }

  /** Below a cut node: any way up to the root passes through it. */
  lemma {:induction false} BelowIntoCut(d: Doc, r: Doc, t: Node, m: Node)
    requires Valid(d) && Valid(r) && Cut(d, r) && 0 < t < |d| && m < |d| && r[t].up == None
    requires Below(d, t, m)
    ensures !Below(r, 0, m)
    decreases m
  {
    if r[m].up.Some? {
      var p := d[m].up.value;
      if p != t {
        BelowIntoCut(d, r, t, p);
      } else {
        NoRootStep(r, t);
      }
    }
  }

  lemma NoRootStep(r: Doc, t: Node)
    requires Valid(r) && t < |r| && r[t].up == None && t != 0
    ensures !Below(r, 0, t)
  {
  }

  // ---------------------------------------------------------------------
  // The tree as a value

  /** The element structure below a node: the cell contents and the elements
      of its children, recursively (tails are not modelled). */
  datatype Element = Element(tag: Tag, attrs: Attrs, text: Option<string>, kids: seq<Element>)

  ghost function ToTree(d: Doc, n: Node): Element
    requires Valid(d) && n < |d|
    decreases |d| - n
  {
    Element(d[n].tag, d[n].attrs, d[n].text,
            seq(|d[n].kids|, i requires 0 <= i < |d[n].kids| => ToTree(d, d[n].kids[i])))
  }

  /** Two cells with the same contents; their parent links may differ. */
  predicate Same(a: Cell, b: Cell)
  {
    a.tag == b.tag && a.attrs == b.attrs && a.text == b.text && a.kids == b.kids
  }

  /** A subtree only sees the contents of the cells from its own id on. */
  lemma {:induction false} ToTreeFrame(d: Doc, r: Doc, n: Node)
    requires Valid(d) && Valid(r) && n < |d| <= |r|
    requires forall x :: n <= x < |d| ==> Same(r[x], d[x])
    ensures ToTree(r, n) == ToTree(d, n)
    decreases |d| - n
  {
    forall i | 0 <= i < |d[n].kids| ensures ToTree(r, d[n].kids[i]) == ToTree(d, d[n].kids[i]) {
      ToTreeFrame(d, r, d[n].kids[i]);
    }
  }

  /** Ancestors of one node are ordered. */
  lemma {:induction false} BelowChain(d: Doc, a: Node, b: Node, m: Node)
    requires Valid(d) && a < |d| && b < |d| && m < |d| && Below(d, a, m) && Below(d, b, m)
    ensures a == b || Below(d, a, b) || Below(d, b, a)
    decreases m
  {
    var p := d[m].up.value;
    if p != a && p != b {
      BelowChain(d, a, b, p);
    }
  }

  // ---------------------------------------------------------------------
  // Moving a subtree across documents

  /** `r` extends `t`: old cells are kept, except that `p` may gain children
      after its existing ones. */
  ghost predicate Grows(t: Doc, r: Doc, p: Node)
  {
    && |t| <= |r| && p < |t|
    && (forall x :: 0 <= x < |t| && x != p ==> r[x] == t[x])
    && r[p].tag == t[p].tag && r[p].attrs == t[p].attrs && r[p].text == t[p].text
    && r[p].up == t[p].up && t[p].kids <= r[p].kids
  }

  lemma GrowsTrans(t: Doc, u: Doc, r: Doc, p: Node)
    requires Grows(t, u, p) && Grows(u, r, p)
    ensures Grows(t, r, p)
  {
  }

  /** `p.append(c)` where `c` belongs to the document `s`: a copy of the
      subtree of `c` becomes the last child of `p`; the copy of `c` gets id
      `|t|` and its descendants the ids after it. */
  function Graft(t: Doc, p: Node, s: Doc, c: Node): (r: Doc)
    requires Valid(t) && Valid(s) && p < |t| && c < |s| && t[p].tag.Elem?
    ensures Valid(r) && |r| > |t| && Grows(t, r, p)
    ensures r[p].kids == t[p].kids + [|t|]
    ensures r[|t|].up == Some(p) && r[|t|].tag == s[c].tag && r[|t|].attrs == s[c].attrs
    decreases |s| - c, 1
  {
    var t0 := AddNode(t, p, s[c].tag, s[c].attrs, s[c].text);
    var r := GraftKids(t0, |t|, s, c, 0);
    assert r[p] == t0[p];
    r
  }

  /** Copies of the children `i..` of `c` appended under `np`, the copy of `c`. */
  function GraftKids(t: Doc, np: Node, s: Doc, c: Node, i: nat): (r: Doc)
    requires Valid(t) && Valid(s) && np < |t| && c < |s| && i <= |s[c].kids|
    requires t[np].tag == s[c].tag
    ensures Valid(r) && Grows(t, r, np)
    ensures |r[np].kids| == |t[np].kids| + |s[c].kids| - i
    decreases |s| - c, 0, |s[c].kids| - i
  {
    if i == |s[c].kids| then t
    else
      var k := s[c].kids[i];
      var t1 := Graft(t, np, s, k);
      var r := GraftKids(t1, np, s, c, i + 1);
      GrowsTrans(t, t1, r, np);
      r
  }

  /** The elements of a list of nodes. */
  ghost function Trees(d: Doc, ks: seq<Node>): (r: seq<Element>)
    requires Valid(d) && forall j :: 0 <= j < |ks| ==> ks[j] < |d|
  {
    seq(|ks|, j requires 0 <= j < |ks| => ToTree(d, ks[j]))
  }

  /** The moved subtree arrives intact. */
  lemma {:induction false} GraftTree(t: Doc, p: Node, s: Doc, c: Node)
    requires Valid(t) && Valid(s) && p < |t| && c < |s| && t[p].tag.Elem?
    ensures ToTree(Graft(t, p, s, c), |t|) == ToTree(s, c)
    decreases |s| - c, 1
  {
    var t0 := AddNode(t, p, s[c].tag, s[c].attrs, s[c].text);
    var r := GraftKids(t0, |t|, s, c, 0);
    assert Graft(t, p, s, c) == r;
    GraftKidsTree(t0, |t|, s, c, 0);
    assert r[|t|].kids == r[|t|].kids[|t0[|t|].kids|..];
    assert s[c].kids == s[c].kids[0..];
    assert ToTree(r, |t|).kids == Trees(r, r[|t|].kids);
    assert ToTree(s, c).kids == Trees(s, s[c].kids);
  }

  lemma {:induction false} GraftKidsTree(t: Doc, np: Node, s: Doc, c: Node, i: nat)
    requires Valid(t) && Valid(s) && np < |t| && c < |s| && i <= |s[c].kids|
    requires t[np].tag == s[c].tag
    ensures var r := GraftKids(t, np, s, c, i);
      Trees(r, r[np].kids[|t[np].kids|..]) == Trees(s, s[c].kids[i..])
    decreases |s| - c, 0, |s[c].kids| - i
  {
    var r := GraftKids(t, np, s, c, i);
    if i < |s[c].kids| {
      var k := s[c].kids[i];
      var t1 := Graft(t, np, s, k);
      assert r == GraftKids(t1, np, s, c, i + 1);
      GraftTree(t, np, s, k);
      GraftKidsTree(t1, np, s, c, i + 1);
      GraftKidsTreeStep(t, t1, r, s, np, c, i);
    } else {
      assert r[np].kids[|t[np].kids|..] == [];
    }
  }

  /** One step of GraftKidsTree: a grafted copy followed by the later ones. */
  lemma GraftKidsTreeStep(t: Doc, t1: Doc, r: Doc, s: Doc, np: Node, c: Node, i: nat)
    requires Valid(t) && Valid(t1) && Valid(r) && Valid(s) && np < |t| < |t1|
    requires Grows(t, t1, np) && Grows(t1, r, np) && t1[np].kids == t[np].kids + [|t|]
    requires c < |s| && i < |s[c].kids|
    requires ToTree(t1, |t|) == ToTree(s, s[c].kids[i])
    requires Trees(r, r[np].kids[|t1[np].kids|..]) == Trees(s, s[c].kids[i + 1..])
    ensures Trees(r, r[np].kids[|t[np].kids|..]) == Trees(s, s[c].kids[i..])
  {
    ToTreeFrame(t1, r, |t|);
    var a := |t[np].kids|;
    assert r[np].kids[a] == |t|;
    SliceCons(r[np].kids, a);
    SliceCons(s[c].kids, i);
    TreesStep(r, s, |t|, s[c].kids[i], r[np].kids[a + 1..], s[c].kids[i + 1..]);
  }

  lemma SliceCons(ks: seq<Node>, i: nat)
    requires i < |ks|
    ensures ks[i..] == [ks[i]] + ks[i + 1..]
  {
  }

  lemma TreesStep(r: Doc, s: Doc, a: Node, k: Node, ks: seq<Node>, ls: seq<Node>)
    requires Valid(r) && Valid(s) && a < |r| && k < |s|
    requires forall j :: 0 <= j < |ks| ==> ks[j] < |r|
    requires forall j :: 0 <= j < |ls| ==> ls[j] < |s|
    requires ToTree(r, a) == ToTree(s, k) && Trees(r, ks) == Trees(s, ls)
    ensures Trees(r, [a] + ks) == Trees(s, [k] + ls)
  {
    TreesCons(r, a, ks);
    TreesCons(s, k, ls);
  }

  lemma TreesCons(d: Doc, a: Node, ks: seq<Node>)
    requires Valid(d) && a < |d| && forall j :: 0 <= j < |ks| ==> ks[j] < |d|
    ensures Trees(d, [a] + ks) == [ToTree(d, a)] + Trees(d, ks)
  {
  }

  /** Every new node of a graft lies under the copy of `c`. */
  lemma {:induction false} GraftBelow(t: Doc, p: Node, s: Doc, c: Node)
    requires Valid(t) && Valid(s) && p < |t| && c < |s| && t[p].tag.Elem?
    ensures forall x :: |t| < x < |Graft(t, p, s, c)| ==> Below(Graft(t, p, s, c), |t|, x)
    decreases |s| - c, 1
  {
    var t0 := AddNode(t, p, s[c].tag, s[c].attrs, s[c].text);
    assert Graft(t, p, s, c) == GraftKids(t0, |t|, s, c, 0);
    GraftKidsBelow(t0, |t|, s, c, 0);
  }

  lemma {:induction false} GraftKidsBelow(t: Doc, np: Node, s: Doc, c: Node, i: nat)
    requires Valid(t) && Valid(s) && np < |t| && c < |s| && i <= |s[c].kids|
    requires t[np].tag == s[c].tag
    ensures forall x :: |t| <= x < |GraftKids(t, np, s, c, i)| ==> Below(GraftKids(t, np, s, c, i), np, x)
    decreases |s| - c, 0, |s[c].kids| - i
  {
    if i < |s[c].kids| {
      var k := s[c].kids[i];
      var t1 := Graft(t, np, s, k);
      var r := GraftKids(t1, np, s, c, i + 1);
      GraftBelow(t, np, s, k);
      GraftKidsBelow(t1, np, s, c, i + 1);
      assert Below(t1, np, |t|);
      forall x | |t| <= x < |t1| ensures Below(r, np, x) {
        if x > |t| {
          BelowTrans(t1, np, |t|, x);
        }
        BelowFrame(t1, r, np, x);
      }
    }
  }

  /** Where a new node of a graft came from: a node at or under `c`. */
  ghost predicate CopiedFrom(s: Doc, c: Node, cell: Cell)
    requires Valid(s) && c < |s|
  {
    exists y :: 0 <= y < |s| && (y == c || Below(s, c, y)) && cell.tag == s[y].tag && cell.attrs == s[y].attrs
  }

  /** Like CopiedFrom, for a node strictly under `c`. */
  ghost predicate StrictCopy(s: Doc, c: Node, cell: Cell)
    requires Valid(s) && c < |s|
  {
    exists y :: 0 <= y < |s| && Below(s, c, y) && cell.tag == s[y].tag && cell.attrs == s[y].attrs
  }

  lemma {:induction false} GraftOrigin(t: Doc, p: Node, s: Doc, c: Node)
    requires Valid(t) && Valid(s) && p < |t| && c < |s| && t[p].tag.Elem?
    ensures forall x :: |t| <= x < |Graft(t, p, s, c)| ==> CopiedFrom(s, c, Graft(t, p, s, c)[x])
    decreases |s| - c, 1
  {
    var t0 := AddNode(t, p, s[c].tag, s[c].attrs, s[c].text);
    var r := GraftKids(t0, |t|, s, c, 0);
    assert Graft(t, p, s, c) == r;
    GraftKidsOrigin(t0, |t|, s, c, 0);
    assert CopiedFrom(s, c, r[|t|]) by {
      assert r[|t|].tag == s[c].tag && r[|t|].attrs == s[c].attrs;
    }
  }

  lemma {:induction false} GraftKidsOrigin(t: Doc, np: Node, s: Doc, c: Node, i: nat)
    requires Valid(t) && Valid(s) && np < |t| && c < |s| && i <= |s[c].kids|
    requires t[np].tag == s[c].tag
    ensures forall x :: |t| <= x < |GraftKids(t, np, s, c, i)| ==> StrictCopy(s, c, GraftKids(t, np, s, c, i)[x])
    decreases |s| - c, 0, |s[c].kids| - i
  {
    if i < |s[c].kids| {
      var k := s[c].kids[i];
      var t1 := Graft(t, np, s, k);
      var r := GraftKids(t1, np, s, c, i + 1);
      assert forall x :: |t| <= x < |t1| ==> StrictCopy(s, c, t1[x]) by {
        GraftOrigin(t, np, s, k);
        KidUp(s, c, k);
        forall x | |t| <= x < |t1| ensures StrictCopy(s, c, t1[x]) {
          assert CopiedFrom(s, k, t1[x]);
          var y :| 0 <= y < |s| && (y == k || Below(s, k, y)) && t1[x].tag == s[y].tag && t1[x].attrs == s[y].attrs;
          if y != k {
            BelowTrans(s, c, k, y);
          }
          assert Below(s, c, y);
        }
      }
      GraftKidsOrigin(t1, np, s, c, i + 1);
      forall x | |t| <= x < |t1| ensures StrictCopy(s, c, r[x]) {
        assert r[x] == t1[x];
      }
    }
  }

  /** After a graft: old nodes keep their liveness, new ones are live iff `p` is. */
  lemma LiveAfterGraft(t: Doc, p: Node, s: Doc, c: Node, x: Node)
    requires Valid(t) && Valid(s) && p < |t| && c < |s| && t[p].tag.Elem?
    requires x < |Graft(t, p, s, c)|
    ensures x < |t| ==> (Live(Graft(t, p, s, c), x) <==> Live(t, x))
    ensures |t| <= x ==> (Live(Graft(t, p, s, c), x) <==> Live(t, p))
  {
    var r := Graft(t, p, s, c);
    if x < |t| {
      LiveFrame(t, r, x);
    } else {
      LiveFrame(t, r, p);
      GraftBelow(t, p, s, c);
      assert Below(r, p, x) by {
        if x > |t| {
          BelowTrans(r, p, |t|, x);
        }
      }
      if Live(r, x) && p != 0 {
        BelowChain(r, 0, p, x);
      }
      if Live(r, p) && p != 0 {
        BelowTrans(r, 0, p, x);
      }
    }
  }

  // ---------------------------------------------------------------------
  // Removing a set of nodes

  /** The document after every node of `m` was removed from its parent. */
  ghost function RemoveAll(d: Doc, m: set<Node>): (r: Doc)
    requires Valid(d)
    ensures Valid(r) && Cut(d, r)
    ensures forall x :: 0 <= x < |d| ==> Same(r[x], d[x].(kids := Without(d[x].kids, m)))
    ensures forall x :: 0 <= x < |d| ==> r[x].up == if x in m then None else d[x].up
  {
    var r := seq(|d|, i requires 0 <= i < |d| =>
      d[i].(kids := Without(d[i].kids, m), up := if i in m then None else d[i].up));
    assert KidsOk(r) by {
      forall n, i | 0 <= n < |r| && 0 <= i < |r[n].kids|
        ensures n < r[n].kids[i] < |r| && r[r[n].kids[i]].up == Some(n)
      {
        var k := r[n].kids[i];
        assert k in d[n].kids && k !in m;
        KidUp(d, n, k);
      }
    }
    r
  }

  /** Removing nothing changes nothing. */
  lemma RemoveAllNone(d: Doc)
    requires Valid(d)
    ensures RemoveAll(d, {}) == d
  {
    var r := RemoveAll(d, {});
    forall y | 0 <= y < |d| ensures r[y] == d[y] {
      WithoutNone(d[y].kids, {});
    }
  }

  /** Removing one more member is one more `parent.remove`. */
  lemma RemoveAllStep(d: Doc, s: set<Node>, x: Node)
    requires Valid(d) && x < |d| && x !in s && d[x].up.Some?
    ensures RemoveAll(d, s)[x].up.Some?
    ensures Detach(RemoveAll(d, s), x) == RemoveAll(d, s + {x})
  {
    var r := RemoveAll(d, s);
    var q := d[x].up.value;
    var a := Detach(r, x);
    var b := RemoveAll(d, s + {x});
    forall y | 0 <= y < |d| ensures a[y] == b[y] {
      StepCell(d, s, x, y);
    }
    assert |a| == |b|;
  }

  lemma StepCell(d: Doc, s: set<Node>, x: Node, y: Node)
    requires Valid(d) && x < |d| && x !in s && d[x].up.Some? && y < |d|
    ensures RemoveAll(d, s)[x].up.Some?
    ensures Detach(RemoveAll(d, s), x)[y] == RemoveAll(d, s + {x})[y]
  {
    var r := RemoveAll(d, s);
    var q := d[x].up.value;
    var a := Detach(r, x);
    var b := RemoveAll(d, s + {x});
    WithoutTwice(d[y].kids, s, {x});
    if y == q {
      assert a[y].kids == Without(r[y].kids, {x});
    } else {
      assert x !in d[y].kids by {
        if x in d[y].kids {
          KidUp(d, y, x);
        }
      }
      WithoutNone(Without(d[y].kids, s), {x});
      if y == x {
        assert a[y] == r[y].(up := None);
      } else {
        assert a[y] == r[y];
      }
    }
  }

  /** Which nodes are still in the tree: those not in `m` and not under one. */
  lemma LiveAfterRemoveAll(d: Doc, m: set<Node>, y: Node)
    requires Valid(d) && 0 !in m && y < |d|
    requires forall x :: x in m ==> x < |d|
    ensures Live(RemoveAll(d, m), y) <==>
      Live(d, y) && y !in m && forall x :: x in m ==> !Below(d, x, y)
  {
    var r := RemoveAll(d, m);
    if Live(r, y) && y != 0 {
      BelowCut(d, r, 0, y);
      forall x | x in m ensures !Below(d, x, y) {
        if Below(d, x, y) {
          BelowIntoCut(d, r, x, y);
        }
      }
    }
    if Live(d, y) && y !in m && (forall x :: x in m ==> !Below(d, x, y)) && y != 0 {
      BelowUncut(d, r, 0, y);
    }
  }

  /** The same for a document whose old nodes have exactly the links of `d`
      with those of `m` cut, whatever else it gained. */
  lemma LiveByUps(d: Doc, r: Doc, m: set<Node>, y: Node)
    requires Valid(d) && Valid(r) && y < |d| <= |r| && 0 !in m
    requires forall x :: x in m ==> x < |d|
    requires forall z :: 0 <= z <= y ==> r[z].up == if z in m then None else d[z].up
    ensures Live(r, y) <==> Live(d, y) && y !in m && forall x :: x in m ==> !Below(d, x, y)
  {
    var c := RemoveAll(d, m);
    LiveFrame(c, r, y);
    LiveAfterRemoveAll(d, m, y);
  }

  /** A node the root still reaches keeps every ancestor it had. */
  lemma {:induction false} BelowLive(d: Doc, r: Doc, z: Node, y: Node)
    requires Valid(d) && Valid(r) && Cut(d, r) && y < |d|
    requires Below(r, 0, y) && Below(d, z, y)
    ensures Below(r, z, y)
    decreases y
  {
    var p := d[y].up.value;
    if p != z {
      assert p != 0 by {
        if p == 0 {
          BelowLess(d, z, p);
        }
      }
      BelowLive(d, r, z, p);
    }
  }
}
