/** `_replace` (descr.py:201-213): the first element `S` of the policy entry
    replaces every element under the root with the tag and exactly the
    attributes of `S`. Each match is removed from its parent and `S` is
    appended to that parent; because `append` moves a node, `S` ends up under
    the parent of the last match only. */
module ReplacePolicy {
  import opened Wrappers
  import opened Xml
  import opened Queries
  import opened Policy

  /** The first `n` nodes of `b0` are still there in `b`, with their tags and
      attributes; their parent links are kept or cut. */
  ghost predicate OldKept(b0: Doc, b: Doc, n: nat)
  {
    && n <= |b0| && n <= |b|
    && forall y :: 0 <= y < n ==>
      (b[y].up == b0[y].up || b[y].up == None) && b[y].tag == b0[y].tag && b[y].attrs == b0[y].attrs
  }

  /** One replacing step for the match `t`: `p.remove(t)`, then
      `p.append(S)` on the parent `p` of `t`. */
  ghost function Step(st: Docs, x: Node, t: Node, n0: nat, moved: bool): (r: Docs)
    requires Good(st) && x < |st.derived| && st.derived[x].tag.Elem? && t < n0
    requires if moved then n0 < |st.base| else n0 == |st.base| && st.derived[x].up.Some?
    requires st.base[t].up.Some?
    ensures Good(r) && Kept(st.derived, r.derived) && OldKept(st.base, r.base, n0)
    ensures n0 < |r.base| && |st.base| <= |r.base| && r.base[t].up == None
    ensures moved ==> r.derived == st.derived
  {
    var p := st.base[t].up.value;
    var b1 := Detach(st.base, t);
    DetachKept(st.base, t, n0);
    if !moved then
      var b2 := Graft(b1, p, st.derived, x);
      GraftKept(b1, p, st.derived, x, n0);
      OldKeptTrans(st.base, b1, b2, n0);
      DetachKept(st.derived, x, |st.derived|);
      Docs(b2, Detach(st.derived, x))
    else
      var b2 := MoveWithin(b1, p, n0);
      MoveKept(b1, p, n0, n0);
      OldKeptTrans(st.base, b1, b2, n0);
      Docs(b2, st.derived)
  }

  lemma DetachKept(d: Doc, t: Node, n: nat)
    requires Valid(d) && t < |d| && d[t].up.Some? && n <= |d|
    ensures OldKept(d, Detach(d, t), n) && Kept(d, Detach(d, t))
  {
  }

  lemma GraftKept(t: Doc, p: Node, s: Doc, c: Node, n: nat)
    requires Valid(t) && Valid(s) && p < |t| && c < |s| && t[p].tag.Elem? && n <= |t|
    ensures OldKept(t, Graft(t, p, s, c), n)
  {
  }

  lemma MoveKept(d: Doc, p: Node, x: Node, n: nat)
    requires Valid(d) && p < x < |d| && d[p].tag.Elem? && n <= x
    ensures OldKept(d, MoveWithin(d, p, x), n)
  {
  }

  lemma OldKeptTrans(a: Doc, b: Doc, c: Doc, n: nat)
    requires OldKept(a, b, n) && OldKept(b, c, n)
    ensures OldKept(a, c, n)
  {
  }

  /** The loop over the matches `l`. `S` is node `x` of the derived document
      until the first match; `moved` says it was moved already, as node `n0`
      of the target, `n0` being the size the target had before the loop. */
  ghost function ReplaceFold(st: Docs, x: Node, l: seq<Node>, n0: nat, moved: bool): (r: Result<Docs, Failure>)
    requires Good(st) && x < |st.derived| && st.derived[x].tag.Elem?
    requires forall j :: 0 <= j < |l| ==> l[j] < n0
    requires if moved then n0 < |st.base| else n0 == |st.base| && st.derived[x].up.Some?
    ensures r.Ok? ==> Good(r.value) && Kept(st.derived, r.value.derived) && OldKept(st.base, r.value.base, n0)
    ensures r.Ok? ==> |st.base| <= |r.value.base| && (moved ==> r.value.derived == st.derived)
    decreases |l|
  {
    if l == [] then Ok(st)
    else
      var t := l[0];
      if st.base[t].attrs != st.derived[x].attrs then ReplaceFold(st, x, l[1..], n0, moved)
      else if st.base[t].up.None? then Err(NoParent)
      else
        assert forall j :: 0 <= j < |l[1..]| ==> l[1..][j] < n0;
        var st1 := Step(st, x, t, n0, moved);
        var r := ReplaceFold(st1, x, l[1..], n0, true);
        assert r.Ok? ==> OldKept(st.base, r.value.base, n0) by {
          if r.Ok? {
            OldKeptTrans(st.base, st1.base, r.value.base, n0);
          }
        }
        r
  }

  /** The specification of `_replace` for the entry `e`. */
  ghost function Replace(st: Docs, e: Node): (r: Result<Docs, Failure>)
    requires Good(st) && e < |st.derived|
    ensures r.Ok? ==> Good(r.value) && Kept(st.derived, r.value.derived) && OldKept(st.base, r.value.base, |st.base|)
  {
    KidsIn(st.derived, e);
    match FirstElement(st.derived, st.derived[e].kids)
    case None => Ok(st)
    case Some(x) =>
      KidUp(st.derived, e, x);
      ReplaceFold(st, x, FindAll(st.base, st.derived[x].tag, 0, map[]), |st.base|, false)
  }

  /** The loop cannot fail on distinct entries that all have a parent: a
      step cuts only the link of its own match. */
  lemma {:induction false} FoldOk(st: Docs, x: Node, l: seq<Node>, n0: nat, moved: bool)
    requires Good(st) && x < |st.derived| && st.derived[x].tag.Elem?
    requires forall j :: 0 <= j < |l| ==> l[j] < n0
    requires if moved then n0 < |st.base| else n0 == |st.base| && st.derived[x].up.Some?
    requires Distinct(l) && forall j :: 0 <= j < |l| ==> st.base[l[j]].up.Some?
    ensures ReplaceFold(st, x, l, n0, moved).Ok?
    decreases |l|
  {
    if l != [] {
      var t := l[0];
      if st.base[t].attrs != st.derived[x].attrs {
        FoldOk(st, x, l[1..], n0, moved);
      } else {
        var st1 := Step(st, x, t, n0, moved);
        forall j | 0 <= j < |l[1..]| ensures st1.base[l[1..][j]].up.Some? {
          assert l[1..][j] == l[j + 1] != t;
          StepUps(st, x, t, n0, moved, l[j + 1]);
        }
        FoldOk(st1, x, l[1..], n0, true);
      }
    }
  }

  /** `_replace` never raises: `find_all` lists each element under the root
      once, and each keeps its parent until its own turn. */
  lemma ReplaceOk(st: Docs, e: Node)
    requires Good(st) && e < |st.derived|
    ensures Replace(st, e).Ok?
  {
    KidsIn(st.derived, e);
    match FirstElement(st.derived, st.derived[e].kids)
    case None =>
    case Some(x) =>
      KidUp(st.derived, e, x);
      var l := FindAll(st.base, st.derived[x].tag, 0, map[]);
      FindAllDistinct(st.base, st.derived[x].tag, 0, map[]);
      forall j | 0 <= j < |l| ensures st.base[l[j]].up.Some? {
        FindAllMem(st.base, st.derived[x].tag, 0, map[], l[j]);
      }
      FoldOk(st, x, l, |st.base|, false);
  }

  /** The last entry of `l` whose attributes are `a`. */
  ghost function LastMatch(b: Doc, l: seq<Node>, a: Attrs): (r: Option<Node>)
    requires AllIn(b, l)
    ensures r.Some? ==> r.value in l && b[r.value].attrs == a
    ensures r.None? <==> forall j :: 0 <= j < |l| ==> b[l[j]].attrs != a
  {
    if l == [] then None
    else
      assert forall j :: 1 <= j < |l| ==> l[j] == l[1..][j - 1];
      match LastMatch(b, l[1..], a)
      case Some(t) => Some(t)
      case None => if b[l[0]].attrs == a then Some(l[0]) else None
  }

  lemma {:induction false} LastMatchKept(b0: Doc, b: Doc, l: seq<Node>, n: nat, a: Attrs)
    requires OldKept(b0, b, n) && forall j :: 0 <= j < |l| ==> l[j] < n
    ensures LastMatch(b, l, a) == LastMatch(b0, l, a)
  {
    if l != [] {
      LastMatchKept(b0, b, l[1..], n, a);
    }
  }

  /** Every match found was taken out of its parent. */
  lemma {:induction false} FoldDetaches(st: Docs, x: Node, l: seq<Node>, n0: nat, moved: bool, y: Node)
    requires Good(st) && x < |st.derived| && st.derived[x].tag.Elem?
    requires forall j :: 0 <= j < |l| ==> l[j] < n0
    requires if moved then n0 < |st.base| else n0 == |st.base| && st.derived[x].up.Some?
    requires y in l && st.base[y].attrs == st.derived[x].attrs
    requires ReplaceFold(st, x, l, n0, moved).Ok?
    ensures ReplaceFold(st, x, l, n0, moved).value.base[y].up == None
    decreases |l|
  {
    var t := l[0];
    var r := ReplaceFold(st, x, l, n0, moved);
    if st.base[t].attrs != st.derived[x].attrs {
      FoldDetaches(st, x, l[1..], n0, moved, y);
    } else {
      var st1 := Step(st, x, t, n0, moved);
      assert r == ReplaceFold(st1, x, l[1..], n0, true);
      if y == t {
        assert st1.base[y].up == None;
      } else {
        assert y in l[1..];
        assert st1.base[y].attrs == st.base[y].attrs;
        FoldDetaches(st1, x, l[1..], n0, true, y);
      }
    }
  }

  /** No element with the tag and attributes of `S` that was in the tree is
      left in it, and no old node entered the tree. */
  lemma ReplaceRemoves(st: Docs, e: Node, x: Node, y: Node)
    requires Good(st) && e < |st.derived| && AllIn(st.derived, st.derived[e].kids)
    requires FirstElement(st.derived, st.derived[e].kids) == Some(x)
    requires 0 < y < |st.base|
    ensures Replace(st, e).Ok?
    ensures Live(Replace(st, e).value.base, y) ==> Live(st.base, y)
    ensures st.base[y].tag == st.derived[x].tag && st.base[y].attrs == st.derived[x].attrs ==>
      !Live(Replace(st, e).value.base, y)
  {
    ReplaceOk(st, e);
    var d := st.base;
    var r := Replace(st, e).value.base;
    var l := FindAll(d, st.derived[x].tag, 0, map[]);
    KidUp(st.derived, e, x);
    if Live(r, y) {
      BelowCutBefore(d, r, |d|, 0, y);
    }
    if st.base[y].tag == st.derived[x].tag && st.base[y].attrs == st.derived[x].attrs && Live(r, y) {
      FindAllMem(d, st.derived[x].tag, 0, map[], y);
      FoldDetaches(st, x, l, |d|, false, y);
    }
  }

  /** A replacing step cuts the link of the match `t` and keeps the parent
      link of every other old node. */
  lemma StepUps(st: Docs, x: Node, t: Node, n0: nat, moved: bool, y: Node)
    requires Good(st) && x < |st.derived| && st.derived[x].tag.Elem? && t < n0
    requires if moved then n0 < |st.base| else n0 == |st.base| && st.derived[x].up.Some?
    requires st.base[t].up.Some? && y < n0
    ensures Step(st, x, t, n0, moved).base[y].up == if y == t then None else st.base[y].up
  {
    var p := st.base[t].up.value;
    var b1 := Detach(st.base, t);
    assert b1[y].up == if y == t then None else st.base[y].up;
    if !moved {
      var b2 := Graft(b1, p, st.derived, x);
      assert b2[y].up == b1[y].up;
    } else {
      var b2 := MoveWithin(b1, p, n0);
      assert b2[y].up == b1[y].up;
    }
  }

  /** The loop cuts exactly the parent links of the matches among the old
      nodes: every other old node keeps its parent. */
  lemma {:induction false} FoldUps(st: Docs, x: Node, l: seq<Node>, n0: nat, moved: bool, y: Node)
    requires Good(st) && x < |st.derived| && st.derived[x].tag.Elem?
    requires forall j :: 0 <= j < |l| ==> l[j] < n0
    requires if moved then n0 < |st.base| else n0 == |st.base| && st.derived[x].up.Some?
    requires ReplaceFold(st, x, l, n0, moved).Ok? && y < n0
    ensures ReplaceFold(st, x, l, n0, moved).value.base[y].up ==
      if y in l && st.base[y].attrs == st.derived[x].attrs then None else st.base[y].up
    decreases |l|
  {
    if l != [] {
      var t := l[0];
      var r := ReplaceFold(st, x, l, n0, moved);
      assert y in l <==> y == t || y in l[1..];
      if st.base[t].attrs != st.derived[x].attrs {
        FoldUps(st, x, l[1..], n0, moved, y);
      } else {
        var st1 := Step(st, x, t, n0, moved);
        assert r == ReplaceFold(st1, x, l[1..], n0, true);
        StepUps(st, x, t, n0, moved, y);
        assert st1.base[y].attrs == st.base[y].attrs && st1.derived[x].attrs == st.derived[x].attrs;
        FoldUps(st1, x, l[1..], n0, true, y);
      }
    }
  }

  /** An element `_replace` takes out: in the tree, with the tag and exactly
      the attributes of `S` (the cell `s`). */
  ghost predicate Replaced(b: Doc, s: Cell, z: Node)
    requires Valid(b) && z < |b|
  {
    Below(b, 0, z) && b[z].tag == s.tag && b[z].attrs == s.attrs
  }

  /** `_replace` cuts exactly the parent links of the replaced elements. */
  lemma ReplaceUps(st: Docs, e: Node, x: Node, z: Node)
    requires Good(st) && e < |st.derived| && AllIn(st.derived, st.derived[e].kids)
    requires FirstElement(st.derived, st.derived[e].kids) == Some(x)
    requires z < |st.base|
    ensures Replace(st, e).Ok?
    ensures Replace(st, e).value.base[z].up == if Replaced(st.base, st.derived[x], z) then None else st.base[z].up
  {
    ReplaceOk(st, e);
    var s := st.derived[x];
    KidUp(st.derived, e, x);
    FindAllMem(st.base, s.tag, 0, map[], z);
    FoldUps(st, x, FindAll(st.base, s.tag, 0, map[]), |st.base|, false, z);
  }

  /** Which old nodes are in the tree afterwards: exactly those that were,
      are not replaced and lie under no replaced element. */
  lemma ReplaceLive(st: Docs, e: Node, x: Node, y: Node)
    requires Good(st) && e < |st.derived| && AllIn(st.derived, st.derived[e].kids)
    requires FirstElement(st.derived, st.derived[e].kids) == Some(x)
    requires y < |st.base|
    ensures Replace(st, e).Ok?
    ensures Live(Replace(st, e).value.base, y) <==>
      (Live(st.base, y) && !Replaced(st.base, st.derived[x], y)
       && forall z :: 0 <= z < |st.base| && Replaced(st.base, st.derived[x], z) ==> !Below(st.base, z, y))
  {
    ReplaceOk(st, e);
    var r := Replace(st, e).value.base;
    forall z | 0 <= z <= y ensures r[z].up == if Replaced(st.base, st.derived[x], z) then None else st.base[z].up {
      ReplaceUps(st, e, x, z);
    }
    LiveByReplaced(st.base, r, st.derived[x], y);
  }

  /** Liveness after cutting exactly the links of the replaced elements. */
  lemma LiveByReplaced(d: Doc, r: Doc, s: Cell, y: Node)
    requires Valid(d) && Valid(r) && y < |d| <= |r|
    requires forall z :: 0 <= z <= y ==> r[z].up == if Replaced(d, s, z) then None else d[z].up
    ensures Live(r, y) <==>
      (Live(d, y) && !Replaced(d, s, y)
       && forall z :: 0 <= z < |d| && Replaced(d, s, z) ==> !Below(d, z, y))
  {
    var m := set z | 0 <= z < |d| && Replaced(d, s, z);
    LiveByUps(d, r, m, y);
  }

  /** `S` sits as the last child of its parent. */
  ghost predicate LastChild(b: Doc, n: Node)
  {
    n < |b| && b[n].up.Some? && b[n].up.value < |b| && b[b[n].up.value].kids != []
    && b[b[n].up.value].kids[|b[b[n].up.value].kids| - 1] == n
  }

  /** With no match left in `l` the loop changes nothing. */
  lemma {:induction false} FoldIdle(st: Docs, x: Node, l: seq<Node>, n0: nat, moved: bool)
    requires Good(st) && x < |st.derived| && st.derived[x].tag.Elem?
    requires forall j :: 0 <= j < |l| ==> l[j] < n0
    requires if moved then n0 < |st.base| else n0 == |st.base| && st.derived[x].up.Some?
    requires forall j :: 0 <= j < |l| ==> st.base[l[j]].attrs != st.derived[x].attrs
    ensures ReplaceFold(st, x, l, n0, moved) == Ok(st)
    decreases |l|
  {
    if l != [] {
      assert forall j :: 1 <= j < |l| ==> l[j] == l[1..][j - 1];
      FoldIdle(st, x, l[1..], n0, moved);
    }
  }

  /** Where `S` ends up: as the last child of the parent the last match had,
      with its whole subtree. */
  ghost predicate Placed(st: Docs, x: Node, l: seq<Node>, r: Doc, n0: nat)
    requires Good(st) && x < |st.derived| && AllIn(st.base, l)
  {
    && Valid(r) && LastChild(r, n0) && ToTree(r, n0) == ToTree(st.derived, x)
    && (LastMatch(st.base, l, st.derived[x].attrs).Some? ==>
          r[n0].up == st.base[LastMatch(st.base, l, st.derived[x].attrs).value].up)
  }

  lemma {:induction false} FoldPlaces(st: Docs, x: Node, l: seq<Node>, n0: nat, moved: bool)
    requires Good(st) && x < |st.derived| && st.derived[x].tag.Elem?
    requires forall j :: 0 <= j < |l| ==> l[j] < n0
    requires if moved then n0 < |st.base| else n0 == |st.base| && st.derived[x].up.Some?
    requires moved ==> LastChild(st.base, n0) && ToTree(st.base, n0) == ToTree(st.derived, x)
    requires ReplaceFold(st, x, l, n0, moved).Ok?
    requires moved || LastMatch(st.base, l, st.derived[x].attrs).Some?
    ensures Placed(st, x, l, ReplaceFold(st, x, l, n0, moved).value.base, n0)
    decreases |l|, 1
  {
    if l == [] {
    } else if st.base[l[0]].attrs != st.derived[x].attrs {
      FoldPlaces(st, x, l[1..], n0, moved);
      PlacedSkip(st, x, l, ReplaceFold(st, x, l, n0, moved).value.base, n0);
    } else {
      FoldPlacesHit(st, x, l, n0, moved);
    }
  }

  /** A first entry that does not match changes neither the loop nor its last match. */
  lemma PlacedSkip(st: Docs, x: Node, l: seq<Node>, r: Doc, n0: nat)
    requires Good(st) && x < |st.derived| && AllIn(st.base, l) && l != []
    requires st.base[l[0]].attrs != st.derived[x].attrs
    requires Placed(st, x, l[1..], r, n0)
    ensures Placed(st, x, l, r, n0)
  {
    assert LastMatch(st.base, l, st.derived[x].attrs) == LastMatch(st.base, l[1..], st.derived[x].attrs);
  }

  lemma {:induction false} FoldPlacesHit(st: Docs, x: Node, l: seq<Node>, n0: nat, moved: bool)
    requires Good(st) && x < |st.derived| && st.derived[x].tag.Elem?
    requires forall j :: 0 <= j < |l| ==> l[j] < n0
    requires if moved then n0 < |st.base| else n0 == |st.base| && st.derived[x].up.Some?
    requires moved ==> LastChild(st.base, n0) && ToTree(st.base, n0) == ToTree(st.derived, x)
    requires ReplaceFold(st, x, l, n0, moved).Ok?
    requires l != [] && st.base[l[0]].attrs == st.derived[x].attrs
    ensures Placed(st, x, l, ReplaceFold(st, x, l, n0, moved).value.base, n0)
    decreases |l|, 0
  {
    var a := st.derived[x].attrs;
    var st1 := Step(st, x, l[0], n0, moved);
    assert ReplaceFold(st, x, l, n0, moved) == ReplaceFold(st1, x, l[1..], n0, true);
    var r := ReplaceFold(st1, x, l[1..], n0, true).value.base;
    StepPlaces(st, x, l[0], n0, moved);
    if LastMatch(st1.base, l[1..], a).Some? {
      FoldPlaces(st1, x, l[1..], n0, true);
    } else {
      FoldIdle(st1, x, l[1..], n0, true);
    }
    PlacedHit(st, st1, x, l, r, n0);
  }

  /** A matching first entry: the step's placement stands unless a later match moves `S` again. */
  lemma PlacedHit(st: Docs, st1: Docs, x: Node, l: seq<Node>, r: Doc, n0: nat)
    requires Good(st) && Good(st1) && x < |st.derived| && l != []
    requires forall j :: 0 <= j < |l| ==> l[j] < n0
    requires Kept(st.derived, st1.derived) && OldKept(st.base, st1.base, n0)
    requires st.base[l[0]].attrs == st.derived[x].attrs
    requires ToTree(st1.derived, x) == ToTree(st.derived, x)
    requires Placed(st1, x, l[1..], r, n0)
    requires LastMatch(st1.base, l[1..], st.derived[x].attrs).None? ==> r[n0].up == st.base[l[0]].up
    ensures Placed(st, x, l, r, n0)
  {
    var a := st.derived[x].attrs;
    LastMatchKept(st.base, st1.base, l[1..], n0, a);
    match LastMatch(st1.base, l[1..], a)
    case Some(t1) =>
      assert LastMatch(st.base, l, a) == Some(t1);
    case None =>
      assert LastMatch(st.base, l, a) == Some(l[0]);
  }

  /** One replacing step puts `S` last under the parent of the match. */
  lemma StepPlaces(st: Docs, x: Node, t: Node, n0: nat, moved: bool)
    requires Good(st) && x < |st.derived| && st.derived[x].tag.Elem? && t < n0
    requires if moved then n0 < |st.base| else n0 == |st.base| && st.derived[x].up.Some?
    requires moved ==> LastChild(st.base, n0) && ToTree(st.base, n0) == ToTree(st.derived, x)
    requires st.base[t].up.Some?
    ensures var st1 := Step(st, x, t, n0, moved);
      LastChild(st1.base, n0) && st1.base[n0].up == st.base[t].up
      && ToTree(st1.base, n0) == ToTree(st1.derived, x) && ToTree(st1.derived, x) == ToTree(st.derived, x)
  {
    if moved {
      AgainPlaces(st, x, t, n0);
    } else {
      FirstPlaces(st, x, t, n0);
    }
  }

  lemma FirstPlaces(st: Docs, x: Node, t: Node, n0: nat)
    requires Good(st) && x < |st.derived| && st.derived[x].tag.Elem? && t < n0
    requires n0 == |st.base| && st.derived[x].up.Some? && st.base[t].up.Some?
    ensures var st1 := Step(st, x, t, n0, false);
      LastChild(st1.base, n0) && st1.base[n0].up == st.base[t].up
      && ToTree(st1.base, n0) == ToTree(st1.derived, x) && ToTree(st1.derived, x) == ToTree(st.derived, x)
  {
    var p := st.base[t].up.value;
    var b1 := Detach(st.base, t);
    var b2 := Graft(b1, p, st.derived, x);
    var s1 := Detach(st.derived, x);
    assert Step(st, x, t, n0, false) == Docs(b2, s1);
    GraftTree(b1, p, st.derived, x);
    ToTreeFrame(st.derived, s1, x);
  }

  lemma AgainPlaces(st: Docs, x: Node, t: Node, n0: nat)
    requires Good(st) && x < |st.derived| && st.derived[x].tag.Elem? && t < n0
    requires n0 < |st.base| && st.base[t].up.Some?
    requires LastChild(st.base, n0) && ToTree(st.base, n0) == ToTree(st.derived, x)
    ensures var st1 := Step(st, x, t, n0, true);
      LastChild(st1.base, n0) && st1.base[n0].up == st.base[t].up
      && ToTree(st1.base, n0) == ToTree(st1.derived, x) && ToTree(st1.derived, x) == ToTree(st.derived, x)
  {
    var p := st.base[t].up.value;
    var b1 := Detach(st.base, t);
    var b2 := MoveWithin(b1, p, n0);
    assert Step(st, x, t, n0, true) == Docs(b2, st.derived);
    ToTreeFrame(st.base, b1, n0);
    assert b1[n0].up.value < n0;
    ToTreeFrame(b1, b2, n0);
  }

  /** `S` ends as the last child of the parent of the last match, in document
      order, with the subtree it had in the derived description. */
  lemma ReplacePlaces(st: Docs, e: Node, x: Node)
    requires Good(st) && e < |st.derived| && AllIn(st.derived, st.derived[e].kids)
    requires FirstElement(st.derived, st.derived[e].kids) == Some(x)
    requires LastMatch(st.base, FindAll(st.base, st.derived[x].tag, 0, map[]), st.derived[x].attrs).Some?
    ensures Replace(st, e).Ok?
    ensures Placed(st, x, FindAll(st.base, st.derived[x].tag, 0, map[]), Replace(st, e).value.base, |st.base|)
  {
    ReplaceOk(st, e);
    KidUp(st.derived, e, x);
    FoldPlaces(st, x, FindAll(st.base, st.derived[x].tag, 0, map[]), |st.base|, false);
  }
}
