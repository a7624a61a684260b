/** `_remove` (descr.py:157-178). Each child `S` of the policy entry is
    handled on its own. A childless `S` names elements: every target element
    with the tag and exactly the attributes of `S` is removed from the parent
    `get_parent` finds for it. An `S` with children names an aggregate: in
    every target element with the tag and attributes of `S` whose path equals
    the path of `S` with the marker segment (`frame`, "remove") dropped, each
    leaf with the attributes of some leaf of `S` is removed; tags of leaves
    are not compared. */
module RemovePolicy {
  import opened Wrappers
  import opened Xml
  import opened Queries
  import opened Policy

  /** The elements branch: `for tc in find_all(S.tag, p_dom)`, removing every
      `tc` with the attributes `a` that `get_parent` still finds in the tree. */
  ghost function RemoveElements(d: Doc, l: seq<Node>, a: Attrs): (r: Doc)
    requires Valid(d) && AllIn(d, l)
    ensures Valid(r) && Cut(d, r) && Kept(d, r)
    decreases |l|
  {
    if l == [] then d
    else
      var t := l[0];
      if d[t].attrs == a && ParentIn(d, 0, t).Some? then
        var d1 := Detach(d, t);
        assert Cut(d, d1) && Kept(d, d1);
        var r := RemoveElements(d1, l[1..], a);
        assert Cut(d, r) && Kept(d, r);
        r
      else RemoveElements(d, l[1..], a)
  }

  /** No listed node with attributes `a` is `y` or above it. */
  ghost predicate Spared(d: Doc, l: seq<Node>, a: Attrs, y: Node)
    requires Valid(d) && AllIn(d, l) && y < |d|
  {
    forall j :: 0 <= j < |l| && d[l[j]].attrs == a ==> l[j] != y && !Below(d, l[j], y)
  }

  lemma SparedCons(d: Doc, l: seq<Node>, a: Attrs, y: Node)
    requires Valid(d) && AllIn(d, l) && y < |d| && l != []
    ensures Spared(d, l, a, y) <==>
      (d[l[0]].attrs == a ==> l[0] != y && !Below(d, l[0], y)) && Spared(d, l[1..], a, y)
  {
    assert forall j :: 1 <= j < |l| ==> l[j] == l[1..][j - 1];
  }

  lemma SparedCut(d: Doc, r: Doc, l: seq<Node>, a: Attrs, y: Node)
    requires Valid(d) && Valid(r) && Cut(d, r) && Kept(d, r) && AllIn(d, l) && y < |d| && Live(r, y)
    ensures Spared(r, l, a, y) <==> Spared(d, l, a, y)
  {
    forall j | 0 <= j < |l| ensures Below(r, l[j], y) <==> Below(d, l[j], y) {
      SameAncestors(d, r, l[j], y);
    }
  }

  /** A node is in the tree afterwards exactly when it was before and
      neither it nor any of its ancestors is a listed node with attributes
      `a`. */
  lemma {:induction false} RemoveElementsLive(d: Doc, l: seq<Node>, a: Attrs, y: Node)
    requires Valid(d) && AllIn(d, l) && y < |d|
    requires forall j :: 0 <= j < |l| ==> l[j] != 0
    ensures Live(RemoveElements(d, l, a), y) <==> Live(d, y) && Spared(d, l, a, y)
    decreases |l|
  {
    if l != [] {
      var t := l[0];
      if d[t].attrs == a && ParentIn(d, 0, t).Some? {
        var d1 := Detach(d, t);
        RemoveElementsLive(d1, l[1..], a, y);
        LiveCutStep(d, l, a, y);
      } else {
        RemoveElementsLive(d, l[1..], a, y);
        LiveSkipStep(d, l, a, y);
      }
    }
  }

  lemma LiveCutStep(d: Doc, l: seq<Node>, a: Attrs, y: Node)
    requires Valid(d) && AllIn(d, l) && y < |d| && l != []
    requires d[l[0]].attrs == a && ParentIn(d, 0, l[0]).Some?
    requires Live(RemoveElements(Detach(d, l[0]), l[1..], a), y) <==>
      Live(Detach(d, l[0]), y) && Spared(Detach(d, l[0]), l[1..], a, y)
    ensures Live(RemoveElements(d, l, a), y) <==> Live(d, y) && Spared(d, l, a, y)
  {
    var t := l[0];
    var d1 := Detach(d, t);
    SparedCons(d, l, a, y);
    assert RemoveElements(d, l, a) == RemoveElements(d1, l[1..], a);
    LiveAfterDetach(d, t, y);
    if Live(d1, y) {
      SparedDetach(d, t, l[1..], a, y);
    }
  }

  lemma SparedDetach(d: Doc, t: Node, l: seq<Node>, a: Attrs, y: Node)
    requires Valid(d) && t < |d| && d[t].up.Some? && AllIn(d, l) && y < |d| && Live(Detach(d, t), y)
    ensures Spared(Detach(d, t), l, a, y) <==> Spared(d, l, a, y)
  {
    var d1 := Detach(d, t);
    assert Cut(d, d1) && Kept(d, d1);
    SparedCut(d, d1, l, a, y);
  }

  lemma LiveSkipStep(d: Doc, l: seq<Node>, a: Attrs, y: Node)
    requires Valid(d) && AllIn(d, l) && y < |d| && l != [] && l[0] != 0
    requires !(d[l[0]].attrs == a && ParentIn(d, 0, l[0]).Some?)
    requires Live(RemoveElements(d, l[1..], a), y) <==> Live(d, y) && Spared(d, l[1..], a, y)
    ensures Live(RemoveElements(d, l, a), y) <==> Live(d, y) && Spared(d, l, a, y)
  {
    SparedCons(d, l, a, y);
    assert RemoveElements(d, l, a) == RemoveElements(d, l[1..], a);
    if d[l[0]].attrs == a && Live(d, y) {
      OutsideStaysOut(d, l[0], y);
    }
  }

  /** For a node in the tree, cutting links elsewhere changes none of its ancestors. */
  lemma SameAncestors(d: Doc, r: Doc, z: Node, y: Node)
    requires Valid(d) && Valid(r) && Cut(d, r) && y < |d| && Live(r, y)
    ensures Below(r, z, y) <==> Below(d, z, y)
  {
    if Below(r, z, y) {
      BelowCut(d, r, z, y);
    }
    if Below(d, z, y) {
      BelowLive(d, r, z, y);
    }
  }

  /** A node `get_parent` cannot find has nothing of the tree below it. */
  lemma OutsideStaysOut(d: Doc, t: Node, y: Node)
    requires Valid(d) && t < |d| && y < |d| && t != 0 && Live(d, y)
    requires ParentIn(d, 0, t).None?
    ensures t != y && !Below(d, t, y)
  {
    if Below(d, t, y) {
      BelowChain(d, 0, t, y);
    }
  }

  /** `for t_tag in get_last(tgt): if t_tag.attrib == a:
      t_tag.getparent().remove(t_tag)`, over the list `ts` taken before
      the loop. A detached `t_tag` makes `getparent()` return `None`. */
  ghost function RemoveMatching(d: Doc, ts: seq<Node>, a: Attrs): (r: Result<Doc, Failure>)
    requires Valid(d) && AllIn(d, ts)
    ensures r.Ok? ==> Valid(r.value) && Cut(d, r.value) && Kept(d, r.value)
    ensures r.Err? ==> r.error == NoParent
    decreases |ts|
  {
    if ts == [] then Ok(d)
    else
      var t := ts[0];
      if d[t].attrs != a then RemoveMatching(d, ts[1..], a)
      else if d[t].up.None? then Err(NoParent)
      else
        var d1 := Detach(d, t);
        assert Cut(d, d1) && Kept(d, d1);
        var r := RemoveMatching(d1, ts[1..], a);
        assert r.Ok? ==> Cut(d, r.value) && Kept(d, r.value);
        r
  }

  /** In one target, the nodes of `ts` with the attributes `a` are exactly
      the links cut; every other node keeps its parent. */
  lemma {:induction false} RemoveMatchingCuts(d: Doc, ts: seq<Node>, a: Attrs)
    requires Valid(d) && AllIn(d, ts) && RemoveMatching(d, ts, a).Ok?
    ensures forall y :: 0 <= y < |d| ==>
      RemoveMatching(d, ts, a).value[y].up == if y in ts && d[y].attrs == a then None else d[y].up
    decreases |ts|
  {
    if ts != [] {
      var t := ts[0];
      assert forall y :: y in ts <==> y == t || y in ts[1..] by {
        assert ts == [t] + ts[1..];
      }
      if d[t].attrs != a {
        RemoveMatchingCuts(d, ts[1..], a);
      } else {
        var d1 := Detach(d, t);
        assert RemoveMatching(d, ts, a) == RemoveMatching(d1, ts[1..], a);
        RemoveMatchingCuts(d1, ts[1..], a);
        assert forall y :: 0 <= y < |d| ==> d1[y].attrs == d[y].attrs && d1[y].up == if y == t then None else d[y].up;
      }
    }
  }

  /** One leaf of `S`: its attributes are looked for among the leaves the
      target has at that moment. */
  ghost function RemoveLeaves(d: Doc, tgt: Node, s: Doc, rs: seq<Node>): (r: Result<Doc, Failure>)
    requires Valid(d) && tgt < |d| && Valid(s) && AllIn(s, rs)
    ensures r.Ok? ==> Valid(r.value) && Cut(d, r.value) && Kept(d, r.value)
    ensures r.Err? ==> r.error == NoParent
    decreases |rs|
  {
    if rs == [] then Ok(d)
    else
      GetLastIn(d, tgt);
      match RemoveMatching(d, GetLast(d, tgt), s[rs[0]].attrs)
      case Err(f) => Err(f)
      case Ok(d1) =>
        var r := RemoveLeaves(d1, tgt, s, rs[1..]);
        assert r.Ok? ==> Cut(d, r.value) && Kept(d, r.value);
        r
  }

  /** `tgt` matches the aggregate `S` (node `x` of `s`): same attributes and
      the same path once the marker segment is dropped from the path of `S`. */
  predicate AggregateAt(d: Doc, tgt: Node, s: Doc, x: Node, frame: string)
    requires Valid(d) && tgt < |d| && d[tgt].tag.Elem? && Valid(s) && x < |s| && s[x].tag.Elem?
  {
    d[tgt].attrs == s[x].attrs && StripFrame(XPathOf(s, x), frame) == XPathOf(d, tgt)
  }

  /** The aggregate branch: `for tgt_aggr in find_all(S.tag, p_dom)`. */
  ghost function RemoveAggregates(d: Doc, s: Doc, x: Node, l: seq<Node>, frame: string): (r: Result<Doc, Failure>)
    requires Valid(d) && Valid(s) && x < |s| && s[x].tag.Elem? && AllIn(d, l)
    requires forall j :: 0 <= j < |l| ==> d[l[j]].tag == s[x].tag
    ensures r.Ok? ==> Valid(r.value) && Cut(d, r.value) && Kept(d, r.value)
    ensures r.Err? ==> r.error == NoParent
    decreases |l|
  {
    if l == [] then Ok(d)
    else
      var tgt := l[0];
      if AggregateAt(d, tgt, s, x, frame) then
        GetLastIn(s, x);
        match RemoveLeaves(d, tgt, s, GetLast(s, x))
        case Err(f) => Err(f)
        case Ok(d1) =>
          AggregatesRest(d, d1, s[x].tag, l);
          var r := RemoveAggregates(d1, s, x, l[1..], frame);
          if r.Ok? then CutTrans(d, d1, r.value); KeptTrans(d, d1, r.value); r else r
      else AggregatesRest(d, d, s[x].tag, l); RemoveAggregates(d, s, x, l[1..], frame)
  }

  /** The targets after the first are still nodes with the tag once the
      first was handled. */
  lemma AggregatesRest(d: Doc, d1: Doc, tag: Tag, l: seq<Node>)
    requires AllIn(d, l) && l != [] && Kept(d, d1)
    requires forall j :: 0 <= j < |l| ==> d[l[j]].tag == tag
    ensures AllIn(d1, l[1..]) && forall j :: 0 <= j < |l[1..]| ==> d1[l[1..][j]].tag == tag
  {
    forall j | 0 <= j < |l[1..]| ensures l[1..][j] < |d1| && d1[l[1..][j]].tag == tag {
      assert l[1..][j] == l[j + 1];
    }
  }

  /** One turn of the aggregate loop: the target `l[0]` is handled, with the
      outcome `d1`, and the loop goes on with the rest. */
  lemma AggregatesNext(d: Doc, s: Doc, x: Node, l: seq<Node>, frame: string, d1: Result<Doc, Failure>)
    requires Valid(d) && Valid(s) && x < |s| && s[x].tag.Elem? && AllIn(d, l) && l != []
    requires forall j :: 0 <= j < |l| ==> d[l[j]].tag == s[x].tag
    requires AllIn(s, GetLast(s, x))
    requires d1 == if AggregateAt(d, l[0], s, x, frame) then RemoveLeaves(d, l[0], s, GetLast(s, x)) else Ok(d)
    ensures d1.Ok? ==> Valid(d1.value) && Kept(d, d1.value) && AllIn(d1.value, l[1..])
    ensures d1.Ok? ==> forall j :: 0 <= j < |l[1..]| ==> d1.value[l[1..][j]].tag == s[x].tag
    ensures RemoveAggregates(d, s, x, l, frame) ==
      if d1.Err? then Err(d1.error) else RemoveAggregates(d1.value, s, x, l[1..], frame)
  {
    if d1.Ok? {
      AggregatesRest(d, d1.value, s[x].tag, l);
    }
  }

  /** One child `S` (node `k` of `s`) of the policy entry. */
  ghost function RemoveEntry(d: Doc, s: Doc, k: Node, frame: string): (r: Result<Doc, Failure>)
    requires Valid(d) && Valid(s) && k < |s|
    ensures r.Ok? ==> Valid(r.value) && Cut(d, r.value) && Kept(d, r.value)
  {
    var l := FindAll(d, s[k].tag, 0, map[]);
    FindAllTags(d, s[k].tag, l);
    if |s[k].kids| > 0 then RemoveAggregates(d, s, k, l, frame)
    else Ok(RemoveElements(d, l, s[k].attrs))
  }

  lemma FindAllTags(d: Doc, tag: Tag, l: seq<Node>)
    requires Valid(d) && l == FindAll(d, tag, 0, map[])
    ensures forall j :: 0 <= j < |l| ==> d[l[j]].tag == tag && l[j] != 0
  {
    forall j | 0 <= j < |l| ensures d[l[j]].tag == tag && l[j] != 0 {
      FindAllMem(d, tag, 0, map[], l[j]);
    }
  }

  /** `for s_tag in e`, over the children `ks` of the entry. */
  ghost function RemoveEach(d: Doc, s: Doc, ks: seq<Node>, frame: string): (r: Result<Doc, Failure>)
    requires Valid(d) && Valid(s) && AllIn(s, ks)
    ensures r.Ok? ==> Valid(r.value) && Cut(d, r.value) && Kept(d, r.value)
    decreases |ks|
  {
    if ks == [] then Ok(d)
    else
      match RemoveEntry(d, s, ks[0], frame)
      case Err(f) => Err(f)
      case Ok(d1) =>
        var r := RemoveEach(d1, s, ks[1..], frame);
        assert r.Ok? ==> Cut(d, r.value) && Kept(d, r.value);
        r
  }

  /** The specification of `_remove` for the entry `e`; `frame` is the
      segment the decorator sets, "remove" for this policy. */
  ghost function Remove(st: Docs, e: Node, frame: string): (r: Result<Docs, Failure>)
    requires Good(st) && e < |st.derived|
    ensures r.Ok? ==>
      Good(r.value) && r.value.derived == st.derived && Cut(st.base, r.value.base) && Kept(st.base, r.value.base)
  {
    KidsIn(st.derived, e);
    match RemoveEach(st.base, st.derived, st.derived[e].kids, frame)
    case Err(f) => Err(f)
    case Ok(b) => Ok(Docs(b, st.derived))
  }

  /** `y` is, or lies under, an element other than the root with the tag
      `tag` and exactly the attributes `a`. */
  ghost predicate Doomed(d: Doc, y: Node, tag: Tag, a: Attrs)
    requires Valid(d) && y < |d|
  {
    exists z :: 0 < z < |d| && (z == y || Below(d, z, y)) && d[z].tag == tag && d[z].attrs == a
  }

  /** A childless `S`: afterwards an element is in the tree exactly when it
      was before and neither it nor an ancestor has the tag and exactly the
      attributes of `S`. In particular no such element is left. */
  lemma RemoveChildless(st: Docs, k: Node, frame: string, y: Node)
    requires Good(st) && k < |st.derived| && st.derived[k].kids == [] && y < |st.base|
    ensures RemoveEntry(st.base, st.derived, k, frame).Ok?
    ensures Live(RemoveEntry(st.base, st.derived, k, frame).value, y) <==>
      Live(st.base, y) && !Doomed(st.base, y, st.derived[k].tag, st.derived[k].attrs)
  {
    var d := st.base;
    var tag := st.derived[k].tag;
    var l := FindAll(d, tag, 0, map[]);
    var a := st.derived[k].attrs;
    FindAllTags(d, tag, l);
    RemoveElementsLive(d, l, a, y);
    if Live(d, y) && !Doomed(d, y, tag, a) {
      forall j | 0 <= j < |l| && d[l[j]].attrs == a ensures l[j] != y && !Below(d, l[j], y) {
        assert d[l[j]].tag == tag;
      }
    }
    if Live(d, y) && Doomed(d, y, tag, a) {
      var z :| 0 < z < |d| && (z == y || Below(d, z, y)) && d[z].tag == tag && d[z].attrs == a;
      assert Live(d, z) by {
        if z != y {
          BelowChain(d, 0, z, y);
        }
      }
      FindAllMem(d, tag, 0, map[], z);
      var j :| 0 <= j < |l| && l[j] == z;
    }
  }

  /** Only targets with the attributes of `S` lose nodes: every link the
      aggregate branch cuts is that of a matching target or of a node under
      one. */
  lemma {:induction false} AggregatesInside(d: Doc, s: Doc, x: Node, l: seq<Node>, frame: string, y: Node)
    requires Valid(d) && Valid(s) && x < |s| && s[x].tag.Elem? && AllIn(d, l)
    requires forall j :: 0 <= j < |l| ==> d[l[j]].tag == s[x].tag
    requires RemoveAggregates(d, s, x, l, frame).Ok? && y < |d|
    requires RemoveAggregates(d, s, x, l, frame).value[y].up != d[y].up
    ensures exists j :: 0 <= j < |l| && AggregateAt(d, l[j], s, x, frame) && (y == l[j] || Below(d, l[j], y))
    ensures exists z :: z in GetLast(s, x) && z < |s| && d[y].attrs == s[z].attrs
    decreases |l|, 1
  {
    var tgt := l[0];
    GetLastIn(s, x);
    AggregatesRest(d, d, s[x].tag, l);
    if AggregateAt(d, tgt, s, x, frame) {
      AggregatesInsideHit(d, s, x, l, frame, y);
    }
    else {
      AggregatesInside(d, s, x, l[1..], frame, y);
      var j :| 0 <= j < |l[1..]| && AggregateAt(d, l[1..][j], s, x, frame) && (y == l[1..][j] || Below(d, l[1..][j], y));
      assert l[j + 1] == l[1..][j];
    }
  }

  /** AggregatesInside when the first target matches. */
  lemma {:induction false} AggregatesInsideHit(d: Doc, s: Doc, x: Node, l: seq<Node>, frame: string, y: Node)
    requires Valid(d) && Valid(s) && x < |s| && s[x].tag.Elem? && AllIn(d, l)
    requires forall j :: 0 <= j < |l| ==> d[l[j]].tag == s[x].tag
    requires RemoveAggregates(d, s, x, l, frame).Ok? && y < |d|
    requires RemoveAggregates(d, s, x, l, frame).value[y].up != d[y].up
    requires l != [] && AggregateAt(d, l[0], s, x, frame)
    ensures exists j :: 0 <= j < |l| && AggregateAt(d, l[j], s, x, frame) && (y == l[j] || Below(d, l[j], y))
    ensures exists z :: z in GetLast(s, x) && z < |s| && d[y].attrs == s[z].attrs
    decreases |l|, 0
  {
    var tgt := l[0];
    GetLastIn(s, x);
    var d1 := RemoveLeaves(d, tgt, s, GetLast(s, x)).value;
    if d1[y].up != d[y].up {
      LeavesInside(d, tgt, s, GetLast(s, x), y);
      var i :| 0 <= i < |GetLast(s, x)| && d[y].attrs == s[GetLast(s, x)[i]].attrs;
      assert GetLast(s, x)[i] in GetLast(s, x);
    } else {
      AggregatesRest(d, d1, s[x].tag, l);
      AggregatesInside(d1, s, x, l[1..], frame, y);
      var j :| 0 <= j < |l[1..]| && AggregateAt(d1, l[1..][j], s, x, frame) && (y == l[1..][j] || Below(d1, l[1..][j], y));
      var t := l[1..][j];
      RemoveLeavesPruned(d, tgt, s, GetLast(s, x));
      if y != t {
        BelowCut(d, d1, t, y);
        PrunedBelow(d, d1, t, y);
      }
      SameTarget(d, d1, t, s, x, frame);
      assert l[j + 1] == t;
    }
  }

  /** Within one target, the cut links are those of the target or of nodes under it. */
  lemma {:induction false} LeavesInside(d: Doc, tgt: Node, s: Doc, rs: seq<Node>, y: Node)
    requires Valid(d) && tgt < |d| && Valid(s) && AllIn(s, rs) && y < |d|
    requires RemoveLeaves(d, tgt, s, rs).Ok?
    requires RemoveLeaves(d, tgt, s, rs).value[y].up != d[y].up
    ensures y == tgt || Below(d, tgt, y)
    ensures exists i :: 0 <= i < |rs| && d[y].attrs == s[rs[i]].attrs
    decreases |rs|
  {
    GetLastIn(d, tgt);
    var ts := GetLast(d, tgt);
    var d1 := RemoveMatching(d, ts, s[rs[0]].attrs).value;
    RemoveMatchingCuts(d, ts, s[rs[0]].attrs);
    if d1[y].up != d[y].up {
      GetLastMem(d, tgt, y);
      assert d[y].attrs == s[rs[0]].attrs;
    } else {
      LeavesInside(d1, tgt, s, rs[1..], y);
      if y != tgt {
        BelowCut(d, d1, tgt, y);
      }
      var i :| 0 <= i < |rs[1..]| && d1[y].attrs == s[rs[1..][i]].attrs;
      assert rs[1..][i] == rs[i + 1];
    }
  }

  // ---------------------------------------------------------------------
  // The aggregate branch only removes leaves

  /** `r` came from `d` by removing nodes that were childless at the time:
      children only go away, and a node that lost its parent has none. */
  ghost predicate Pruned(d: Doc, r: Doc)
  {
    |r| == |d| && forall y :: 0 <= y < |d| ==>
      |r[y].kids| <= |d[y].kids| && (forall k :: k in r[y].kids ==> k in d[y].kids)
      && (r[y].up != d[y].up ==> r[y].up == None && r[y].kids == [])
  }

  lemma DetachLeafPruned(d: Doc, t: Node)
    requires Valid(d) && t < |d| && d[t].up.Some? && d[t].kids == []
    ensures Pruned(d, Detach(d, t))
  {
  }

  lemma PrunedTrans(a: Doc, b: Doc, c: Doc)
    requires Pruned(a, b) && Pruned(b, c)
    ensures Pruned(a, c)
  {
    forall y | 0 <= y < |a| && c[y].up != a[y].up && c[y].up == b[y].up ensures c[y].kids == [] {
      PrunedLeaf(b, c, y);
    }
  }

  /** A leaf stays a leaf. */
  lemma PrunedLeaf(d: Doc, r: Doc, y: Node)
    requires Pruned(d, r) && y < |d| && d[y].kids == []
    ensures r[y].kids == []
  {
  }

  /** The parent of a node that kept its link has children, so it kept its
      own link too. */
  lemma PrunedParent(d: Doc, r: Doc, y: Node)
    requires Valid(d) && Valid(r) && Pruned(d, r) && y < |d| && d[y].up.Some? && r[y].up == d[y].up
    ensures r[d[y].up.value].up == d[d[y].up.value].up
  {
    var p := d[y].up.value;
    assert y in r[p].kids;
  }

  /** A node that kept its link keeps every ancestor, and so do they. */
  lemma {:induction false} PrunedBelow(d: Doc, r: Doc, a: Node, y: Node)
    requires Valid(d) && Valid(r) && Pruned(d, r) && y < |d| && r[y].up == d[y].up && Below(d, a, y)
    ensures a < |d| && Below(r, a, y) && r[a].up == d[a].up
    decreases y
  {
    BelowLess(d, a, y);
    var p := d[y].up.value;
    PrunedParent(d, r, y);
    if p != a {
      PrunedBelow(d, r, a, p);
    }
  }

  /** After removing leaves, a node of the tree is still in it exactly when
      its own link was kept. */
  lemma PrunedLive(d: Doc, r: Doc, y: Node)
    requires Valid(d) && Valid(r) && Pruned(d, r) && y < |d|
    ensures Live(r, y) <==> Live(d, y) && (y == 0 || r[y].up == d[y].up)
  {
    if Live(r, y) && y != 0 {
      assert Cut(d, r);
      BelowCut(d, r, 0, y);
    }
    if Live(d, y) && y != 0 && r[y].up == d[y].up {
      PrunedBelow(d, r, 0, y);
    }
  }

  /** A node that kept its link keeps its path. */
  lemma PathTagsPruned(d: Doc, r: Doc, e: Node)
    requires Valid(d) && Valid(r) && Pruned(d, r) && Kept(d, r) && e < |d| && d[e].tag.Elem? && r[e].up == d[e].up
    ensures r[e].tag.Elem? && PathTags(r, e) == PathTags(d, e)
    decreases e
  {
    if d[e].up.Some? {
      var p := d[e].up.value;
      KidUp(d, p, e);
      PrunedParent(d, r, e);
      PathTagsPruned(d, r, p);
    }
  }

  /** `get_last` returns childless nodes. */
  lemma GetLastChildless(d: Doc, n: Node)
    requires Valid(d) && n < |d|
    ensures AllIn(d, GetLast(d, n)) && forall j :: 0 <= j < |GetLast(d, n)| ==> d[GetLast(d, n)[j]].kids == []
  {
    var ts := GetLast(d, n);
    GetLastIn(d, n);
    forall j | 0 <= j < |ts| ensures d[ts[j]].kids == [] {
      GetLastMem(d, n, ts[j]);
    }
  }

  /** One pass over childless nodes removes leaves only. */
  lemma {:induction false} RemoveMatchingPruned(d: Doc, ts: seq<Node>, a: Attrs)
    requires Valid(d) && AllIn(d, ts) && RemoveMatching(d, ts, a).Ok?
    requires forall j :: 0 <= j < |ts| ==> d[ts[j]].kids == []
    ensures Pruned(d, RemoveMatching(d, ts, a).value)
    decreases |ts|
  {
    if ts != [] {
      var t := ts[0];
      assert forall j :: 0 <= j < |ts[1..]| ==> ts[1..][j] == ts[j + 1];
      if d[t].attrs != a {
        RemoveMatchingPruned(d, ts[1..], a);
      } else {
        var d1 := Detach(d, t);
        DetachLeafPruned(d, t);
        assert RemoveMatching(d, ts, a) == RemoveMatching(d1, ts[1..], a);
        forall j | 0 <= j < |ts[1..]| ensures d1[ts[1..][j]].kids == [] {
          PrunedLeaf(d, d1, ts[1..][j]);
        }
        RemoveMatchingPruned(d1, ts[1..], a);
        PrunedTrans(d, d1, RemoveMatching(d, ts, a).value);
      }
    }
  }

  /** The loop over the leaves of `S` removes leaves of the target only. */
  lemma {:induction false} RemoveLeavesPruned(d: Doc, tgt: Node, s: Doc, rs: seq<Node>)
    requires Valid(d) && tgt < |d| && Valid(s) && AllIn(s, rs) && RemoveLeaves(d, tgt, s, rs).Ok?
    ensures Pruned(d, RemoveLeaves(d, tgt, s, rs).value)
    decreases |rs|
  {
    if rs != [] {
      GetLastChildless(d, tgt);
      var d1 := RemoveMatching(d, GetLast(d, tgt), s[rs[0]].attrs).value;
      RemoveMatchingPruned(d, GetLast(d, tgt), s[rs[0]].attrs);
      RemoveLeavesPruned(d1, tgt, s, rs[1..]);
      PrunedTrans(d, d1, RemoveLeaves(d, tgt, s, rs).value);
    }
  }

  /** A node under something has children there. */
  lemma BelowKids(d: Doc, a: Node, y: Node)
    requires Valid(d) && a < |d| && y < |d| && Below(d, a, y)
    ensures d[a].kids != []
  {
    BelowStepDown(d, a, y);
  }

  /** A last node of `tgt` that kept its link is still one after leaves were
      removed. */
  lemma StillLast(d: Doc, d1: Doc, tgt: Node, y: Node)
    requires Valid(d) && Valid(d1) && Pruned(d, d1) && tgt < |d| && y < |d|
    requires y in GetLast(d, tgt) && d1[y].up == d[y].up
    ensures y in GetLast(d1, tgt)
  {
    GetLastMem(d, tgt, y);
    GetLastMem(d1, tgt, y);
    if d[tgt].kids == [] {
      PrunedLeaf(d, d1, tgt);
    } else {
      PrunedBelow(d, d1, tgt, y);
      PrunedLeaf(d, d1, y);
      BelowKids(d1, tgt, y);
    }
  }

  /** Every last node of `tgt` with the attributes of one of `rs` loses its
      parent. */
  lemma {:induction false} RemoveLeavesComplete(d: Doc, tgt: Node, s: Doc, rs: seq<Node>, i: nat, y: Node)
    requires Valid(d) && tgt < |d| && Valid(s) && AllIn(s, rs) && RemoveLeaves(d, tgt, s, rs).Ok?
    requires y < |d| && y in GetLast(d, tgt) && i < |rs| && d[y].attrs == s[rs[i]].attrs
    ensures RemoveLeaves(d, tgt, s, rs).value[y].up == None
    decreases |rs|
  {
    GetLastIn(d, tgt);
    var ts := GetLast(d, tgt);
    var a := s[rs[0]].attrs;
    var d1 := RemoveMatching(d, ts, a).value;
    var r := RemoveLeaves(d, tgt, s, rs).value;
    assert r == RemoveLeaves(d1, tgt, s, rs[1..]).value;
    assert d1[y].up == if d[y].attrs == a then None else d[y].up by {
      RemoveMatchingCuts(d, ts, a);
    }
    if d1[y].up == d[y].up && i > 0 {
      assert Pruned(d, d1) by {
        GetLastChildless(d, tgt);
        RemoveMatchingPruned(d, ts, a);
      }
      StillLast(d, d1, tgt, y);
      assert rs[1..][i - 1] == rs[i];
      RemoveLeavesComplete(d1, tgt, s, rs[1..], i - 1, y);
    } else {
      assert d1[y].up == None;
      assert Cut(d1, r);
    }
  }

  /** A last node of a matching element that kept its link is still a last
      node of that element, and the element still matches. */
  lemma StillAggregate(d: Doc, d1: Doc, t: Node, s: Doc, x: Node, frame: string, y: Node)
    requires Valid(d) && Valid(d1) && Pruned(d, d1) && Kept(d, d1)
    requires Valid(s) && x < |s| && s[x].tag.Elem?
    requires t < |d| && d[t].tag == s[x].tag && AggregateAt(d, t, s, x, frame)
    requires y < |d| && y in GetLast(d, t) && d1[y].up == d[y].up
    ensures y in GetLast(d1, t) && AggregateAt(d1, t, s, x, frame)
  {
    GetLastMem(d, t, y);
    if y != t {
      PrunedBelow(d, d1, t, y);
    }
    SameTarget(d, d1, t, s, x, frame);
    StillLast(d, d1, t, y);
  }

  /** A target that kept its link is a match afterwards exactly when it was
      one before: only leaves went away, so its path is the same. */
  lemma SameTarget(d: Doc, d1: Doc, t: Node, s: Doc, x: Node, frame: string)
    requires Valid(d) && Valid(d1) && Pruned(d, d1) && Kept(d, d1)
    requires Valid(s) && x < |s| && s[x].tag.Elem?
    requires t < |d| && d[t].tag == s[x].tag && d1[t].up == d[t].up
    ensures d1[t].tag == s[x].tag
    ensures AggregateAt(d1, t, s, x, frame) == AggregateAt(d, t, s, x, frame)
  {
    PathTagsPruned(d, d1, t);
  }

  /** The aggregate branch removes leaves only. */
  lemma {:induction false} RemoveAggregatesPruned(d: Doc, s: Doc, x: Node, l: seq<Node>, frame: string)
    requires Valid(d) && Valid(s) && x < |s| && s[x].tag.Elem? && AllIn(d, l)
    requires forall j :: 0 <= j < |l| ==> d[l[j]].tag == s[x].tag
    requires RemoveAggregates(d, s, x, l, frame).Ok?
    ensures Pruned(d, RemoveAggregates(d, s, x, l, frame).value)
    decreases |l|
  {
    if l != [] {
      GetLastIn(s, x);
      if AggregateAt(d, l[0], s, x, frame) {
        var d1 := RemoveLeaves(d, l[0], s, GetLast(s, x)).value;
        RemoveLeavesPruned(d, l[0], s, GetLast(s, x));
        AggregatesRest(d, d1, s[x].tag, l);
        RemoveAggregatesPruned(d1, s, x, l[1..], frame);
        PrunedTrans(d, d1, RemoveAggregates(d, s, x, l, frame).value);
      } else {
        AggregatesRest(d, d, s[x].tag, l);
        RemoveAggregatesPruned(d, s, x, l[1..], frame);
      }
    }
  }

  /** In every matching target, each last node with the attributes of a
      leaf `z` of `S` loses its parent. */
  lemma {:induction false} AggregatesComplete(d: Doc, s: Doc, x: Node, l: seq<Node>, frame: string, j: nat, y: Node, z: Node)
    requires Valid(d) && Valid(s) && x < |s| && s[x].tag.Elem? && AllIn(d, l)
    requires forall j :: 0 <= j < |l| ==> d[l[j]].tag == s[x].tag
    requires RemoveAggregates(d, s, x, l, frame).Ok?
    requires j < |l| && AggregateAt(d, l[j], s, x, frame)
    requires y < |d| && y in GetLast(d, l[j])
    requires z in GetLast(s, x) && z < |s| && d[y].attrs == s[z].attrs
    ensures RemoveAggregates(d, s, x, l, frame).value[y].up == None
    decreases |l|
  {
    GetLastIn(s, x);
    var r := RemoveAggregates(d, s, x, l, frame).value;
    var d1 := if AggregateAt(d, l[0], s, x, frame) then RemoveLeaves(d, l[0], s, GetLast(s, x)).value else d;
    AggregatesRest(d, d1, s[x].tag, l);
    assert r == RemoveAggregates(d1, s, x, l[1..], frame).value;
    if j == 0 {
      var i :| 0 <= i < |GetLast(s, x)| && GetLast(s, x)[i] == z;
      assert d1[y].up == None by {
        RemoveLeavesComplete(d, l[0], s, GetLast(s, x), i, y);
      }
      assert Cut(d1, r);
    } else if d1[y].up == d[y].up {
      var t := l[j];
      assert Pruned(d, d1) by {
        if AggregateAt(d, l[0], s, x, frame) {
          RemoveLeavesPruned(d, l[0], s, GetLast(s, x));
        }
      }
      StillAggregate(d, d1, t, s, x, frame, y);
      assert l[1..][j - 1] == t;
      AggregatesComplete(d1, s, x, l[1..], frame, j - 1, y, z);
    } else {
      assert Cut(d, d1) && Cut(d1, r);
    }
  }

  /** An `S` with children, completeness: every element of the tree with the
      tag of `S` that matches `S` (its attributes, and its path once the
      marker segment is dropped from that of `S`) loses each of its last
      nodes whose attributes are those of a leaf `z` of `S`. */
  lemma AggregateEntryRemoves(st: Docs, k: Node, frame: string, t: Node, y: Node, z: Node)
    requires Good(st) && k < |st.derived| && st.derived[k].kids != [] && st.derived[k].tag.Elem?
    requires RemoveEntry(st.base, st.derived, k, frame).Ok?
    requires t < |st.base| && Below(st.base, 0, t) && st.base[t].tag == st.derived[k].tag
    requires AggregateAt(st.base, t, st.derived, k, frame)
    requires y < |st.base| && y in GetLast(st.base, t)
    requires z in GetLast(st.derived, k) && z < |st.derived| && st.base[y].attrs == st.derived[z].attrs
    ensures !Live(RemoveEntry(st.base, st.derived, k, frame).value, y)
  {
    var d := st.base;
    var l := FindAll(d, st.derived[k].tag, 0, map[]);
    FindAllTags(d, st.derived[k].tag, l);
    FindAllMem(d, st.derived[k].tag, 0, map[], t);
    var j :| 0 <= j < |l| && l[j] == t;
    AggregatesComplete(d, st.derived, k, l, frame, j, y, z);
    GetLastMem(d, t, y);
  }

  /** An `S` with children, soundness: an element of the tree that the entry
      removes lies at or under a matching element with the tag of `S`, has
      the attributes of a leaf of `S`, and has no children and no parent
      afterwards. Every other element stays in the tree. */
  lemma AggregateEntryOnly(st: Docs, k: Node, frame: string, y: Node)
    requires Good(st) && k < |st.derived| && st.derived[k].kids != [] && st.derived[k].tag.Elem?
    requires RemoveEntry(st.base, st.derived, k, frame).Ok?
    requires y < |st.base| && Live(st.base, y)
    requires !Live(RemoveEntry(st.base, st.derived, k, frame).value, y)
    ensures RemoveEntry(st.base, st.derived, k, frame).value[y].up == None
    ensures RemoveEntry(st.base, st.derived, k, frame).value[y].kids == []
    ensures exists t :: (0 < t < |st.base| && st.base[t].tag == st.derived[k].tag
      && AggregateAt(st.base, t, st.derived, k, frame) && (y == t || Below(st.base, t, y)))
    ensures exists z :: z in GetLast(st.derived, k) && z < |st.derived| && st.base[y].attrs == st.derived[z].attrs
  {
    var d := st.base;
    var s := st.derived;
    var l := FindAll(d, s[k].tag, 0, map[]);
    FindAllTags(d, s[k].tag, l);
    var r := RemoveEntry(d, s, k, frame).value;
    RemoveAggregatesPruned(d, s, k, l, frame);
    PrunedLive(d, r, y);
    AggregatesInside(d, s, k, l, frame, y);
    var j :| 0 <= j < |l| && AggregateAt(d, l[j], s, k, frame) && (y == l[j] || Below(d, l[j], y));
    assert d[l[j]].tag == s[k].tag && 0 < l[j] < |d|;
  }
}
