/** `_merge` (descr.py:180-199): the first element `S` of the policy entry
    selects, by `find_all` with the attributes of `S`, the target elements
    whose path equals the path of `S` with the marker segment (`frame`,
    "merge") dropped. Into each of them it moves every child of `S` whose tag
    none of the target's children has yet. Since a moved child leaves `S`, a
    later target only sees the children that are left. */
module MergePolicy {
  import opened Wrappers
  import opened Xml
  import opened Queries
  import opened Policy
  import AddPolicy

  /** Some child of `t` has the tag `tag`. */
  ghost predicate HasKidTag(b: Doc, t: Node, tag: Tag)
    requires Valid(b) && t < |b|
  {
    exists i :: 0 <= i < |b[t].kids| && b[b[t].kids[i]].tag == tag
  }

  /** `for sc in S: if no child of t_tag has the tag of sc: t_tag.append(sc)`,
      over the children `ks` of `S` (node `x`) taken before the loop. */
  ghost function MergeKids(st: Docs, t: Node, x: Node, ks: seq<Node>): (r: Docs)
    requires Good(st) && t < |st.base| && st.base[t].tag.Elem? && x < |st.derived|
    requires Distinct(ks) && forall j :: 0 <= j < |ks| ==> ks[j] in st.derived[x].kids
    ensures Good(r) && Extends(st.base, r.base) && Kept(st.derived, r.derived)
    ensures forall y :: 0 <= y < |st.base| && y != t ==> r.base[y] == st.base[y]
    decreases |ks|
  {
    if ks == [] then st
    else
      var sc := ks[0];
      if HasKidTag(st.base, t, st.derived[sc].tag) then
        NextKids(st.derived, x, ks, st.derived);
        MergeKids(st, t, x, ks[1..])
      else
        var st1 := MoveKid(st, t, x, sc);
        NextKids(st.derived, x, ks, st1.derived);
        var r := MergeKids(st1, t, x, ks[1..]);
        ExtendsTrans(st.base, st1.base, r.base);
        KeptTrans(st.derived, st1.derived, r.derived);
        r
  }

  /** The children of `S` among `ks` that the loop appends to `t`, in their
      order: each one whose tag no child of `t` has at its turn. */
  ghost function Appended(st: Docs, t: Node, x: Node, ks: seq<Node>): (r: seq<Node>)
    requires Good(st) && t < |st.base| && st.base[t].tag.Elem? && x < |st.derived|
    requires Distinct(ks) && forall j :: 0 <= j < |ks| ==> ks[j] in st.derived[x].kids
    ensures forall k :: k in r ==> k in ks
    ensures forall j :: 0 <= j < |r| ==> r[j] in st.derived[x].kids
    decreases |ks|
  {
    if ks == [] then []
    else
      var sc := ks[0];
      if HasKidTag(st.base, t, st.derived[sc].tag) then
        NextKids(st.derived, x, ks, st.derived);
        Appended(st, t, x, ks[1..])
      else
        var st1 := MoveKid(st, t, x, sc);
        NextKids(st.derived, x, ks, st1.derived);
        [sc] + Appended(st1, t, x, ks[1..])
  }

  /** The loop over the targets `l`; `exp` is the path of `S` without the
      marker segment. */
  ghost function MergeTargets(st: Docs, x: Node, l: seq<Node>, exp: string): (r: Docs)
    requires Good(st) && x < |st.derived| && AllIn(st.base, l)
    requires forall j :: 0 <= j < |l| ==> st.base[l[j]].tag.Elem?
    ensures Good(r) && Extends(st.base, r.base) && Kept(st.derived, r.derived)
    decreases |l|
  {
    if l == [] then st
    else
      var t := l[0];
      if XPathOf(st.base, t) == exp then
        var st1 := MergeKids(st, t, x, st.derived[x].kids);
        var r := MergeTargets(st1, x, l[1..], exp);
        ExtendsTrans(st.base, st1.base, r.base);
        r
      else MergeTargets(st, x, l[1..], exp)
  }

  /** One turn of the loop over the targets: `l[0]` is handled, giving
      `st1`, and the loop goes on with the rest. */
  lemma MergeTargetsNext(st: Docs, x: Node, l: seq<Node>, exp: string, st1: Docs)
    requires Good(st) && x < |st.derived| && AllIn(st.base, l) && l != []
    requires forall j :: 0 <= j < |l| ==> st.base[l[j]].tag.Elem?
    requires st1 == if XPathOf(st.base, l[0]) == exp then MergeKids(st, l[0], x, st.derived[x].kids) else st
    ensures Good(st1) && x < |st1.derived| && AllIn(st1.base, l[1..])
    ensures forall j :: 0 <= j < |l[1..]| ==> st1.base[l[1..][j]].tag.Elem?
    ensures MergeTargets(st, x, l, exp) == MergeTargets(st1, x, l[1..], exp)
  {
    forall j | 0 <= j < |l[1..]| ensures l[1..][j] < |st1.base| && st1.base[l[1..][j]].tag.Elem? {
      assert l[1..][j] == l[j + 1];
    }
  }

  /** The specification of `_merge` for the entry `e`; `frame` is the
      segment the decorator sets, "merge" for this policy. */
  ghost function Merge(st: Docs, e: Node, frame: string): (r: Docs)
    requires Good(st) && e < |st.derived|
    ensures Good(r) && Extends(st.base, r.base) && Kept(st.derived, r.derived)
  {
    KidsIn(st.derived, e);
    match FirstElement(st.derived, st.derived[e].kids)
    case None => st
    case Some(x) =>
      FindAllTagged(st.base, st.derived[x].tag, st.derived[x].attrs);
      MergeTargets(st, x, FindAll(st.base, st.derived[x].tag, 0, st.derived[x].attrs),
        StripFrame(XPathOf(st.derived, x), frame))
  }

  /** Only targets on the path of `S` gain children. */
  lemma {:induction false} OnlyTargetsGrow(st: Docs, x: Node, l: seq<Node>, exp: string, y: Node)
    requires Good(st) && x < |st.derived| && AllIn(st.base, l)
    requires forall j :: 0 <= j < |l| ==> st.base[l[j]].tag.Elem?
    requires y < |st.base| && MergeTargets(st, x, l, exp).base[y].kids != st.base[y].kids
    ensures y in l && st.base[y].tag.Elem? && XPathOf(st.base, y) == exp
    decreases |l|
  {
    var t := l[0];
    if XPathOf(st.base, t) == exp {
      var st1 := MergeKids(st, t, x, st.derived[x].kids);
      if y != t {
        OnlyTargetsGrow(st1, x, l[1..], exp, y);
        PathTagsFrame(st.base, st1.base, y);
      }
    } else {
      OnlyTargetsGrow(st, x, l[1..], exp, y);
    }
  }

  /** `_merge` changes the children of none but the matching targets: those
      in the tree, with the tag of `S`, its attributes when it has any, and the
      path of `S` without the marker segment. */
  lemma MergeOnlyMatched(st: Docs, e: Node, frame: string, x: Node, y: Node)
    requires Good(st) && e < |st.derived| && AllIn(st.derived, st.derived[e].kids)
    requires FirstElement(st.derived, st.derived[e].kids) == Some(x)
    requires y < |st.base| && Merge(st, e, frame).base[y].kids != st.base[y].kids
    ensures Live(st.base, y) && Matches(st.base, y, st.derived[x].tag, st.derived[x].attrs)
    ensures st.base[y].tag.Elem? && XPathOf(st.base, y) == StripFrame(XPathOf(st.derived, x), frame)
  {
    var l := FindAll(st.base, st.derived[x].tag, 0, st.derived[x].attrs);
    FindAllTagged(st.base, st.derived[x].tag, st.derived[x].attrs);
    OnlyTargetsGrow(st, x, l, StripFrame(XPathOf(st.derived, x), frame), y);
    FindAllMem(st.base, st.derived[x].tag, 0, st.derived[x].attrs, y);
  }

  /** The children appended to `t` each bring a tag that no earlier child
      of `t` has. */
  ghost predicate NewTags(b: Doc, r: Doc, t: Node)
    requires Valid(b) && Valid(r) && t < |b| && t < |r|
  {
    forall i, j :: 0 <= i < j < |r[t].kids| && |b[t].kids| <= j ==> r[r[t].kids[i]].tag != r[r[t].kids[j]].tag
  }

  /** Afterwards every child of `S` that was considered has its tag among
      the children of `t`. */
  lemma {:induction false} MergeKidsCover(st: Docs, t: Node, x: Node, ks: seq<Node>)
    requires Good(st) && t < |st.base| && st.base[t].tag.Elem? && x < |st.derived|
    requires Distinct(ks) && forall j :: 0 <= j < |ks| ==> ks[j] in st.derived[x].kids
    ensures forall j :: 0 <= j < |ks| ==> HasKidTag(MergeKids(st, t, x, ks).base, t, st.derived[ks[j]].tag)
    decreases |ks|
  {
    if ks != [] {
      var sc := ks[0];
      var r := MergeKids(st, t, x, ks).base;
      if HasKidTag(st.base, t, st.derived[sc].tag) {
        NextKids(st.derived, x, ks, st.derived);
        assert r == MergeKids(st, t, x, ks[1..]).base;
        MergeKidsCover(st, t, x, ks[1..]);
        KidTagStays(st.base, r, t, st.derived[sc].tag);
        CoverStep(st.derived, st.derived, ks, r, t);
      } else {
        var st1 := MoveKid(st, t, x, sc);
        NextKids(st.derived, x, ks, st1.derived);
        assert r == MergeKids(st1, t, x, ks[1..]).base;
        MergeKidsCover(st1, t, x, ks[1..]);
        MovedTag(st, t, x, sc, r);
        CoverStep(st.derived, st1.derived, ks, r, t);
      }
    }
  }

  /** The children appended to `t` carry tags new among its children. */
  lemma {:induction false} MergeKidsNew(st: Docs, t: Node, x: Node, ks: seq<Node>)
    requires Good(st) && t < |st.base| && st.base[t].tag.Elem? && x < |st.derived|
    requires Distinct(ks) && forall j :: 0 <= j < |ks| ==> ks[j] in st.derived[x].kids
    ensures NewTags(st.base, MergeKids(st, t, x, ks).base, t)
    decreases |ks|
  {
    if ks != [] {
      var sc := ks[0];
      var r := MergeKids(st, t, x, ks).base;
      if HasKidTag(st.base, t, st.derived[sc].tag) {
        NextKids(st.derived, x, ks, st.derived);
        MergeKidsNew(st, t, x, ks[1..]);
      } else {
        var st1 := MoveKid(st, t, x, sc);
        NextKids(st.derived, x, ks, st1.derived);
        assert r == MergeKids(st1, t, x, ks[1..]).base;
        MergeKidsNew(st1, t, x, ks[1..]);
        MoveNewTag(st, t, x, sc);
        NewTagsTrans(st.base, st1.base, r, t);
      }
    }
  }

  lemma MovedTag(st: Docs, t: Node, x: Node, sc: Node, r: Doc)
    requires Good(st) && t < |st.base| && st.base[t].tag.Elem? && x < |st.derived| && sc in st.derived[x].kids
    requires Valid(r) && Extends(MoveKid(st, t, x, sc).base, r)
    ensures HasKidTag(r, t, st.derived[sc].tag)
  {
    var b1 := MoveKid(st, t, x, sc).base;
    assert b1[t].kids[|st.base[t].kids|] == |st.base|;
    KidTagStays(b1, r, t, st.derived[sc].tag);
  }

  lemma MoveNewTag(st: Docs, t: Node, x: Node, sc: Node)
    requires Good(st) && t < |st.base| && st.base[t].tag.Elem? && x < |st.derived| && sc in st.derived[x].kids
    requires !HasKidTag(st.base, t, st.derived[sc].tag)
    ensures NewTags(st.base, MoveKid(st, t, x, sc).base, t)
  {
    var b := st.base;
    var r := MoveKid(st, t, x, sc).base;
    forall i, j | 0 <= i < j < |r[t].kids| && |b[t].kids| <= j
      ensures r[r[t].kids[i]].tag != r[r[t].kids[j]].tag
    {
      assert j == |b[t].kids| && r[t].kids[j] == |b|;
      var k := b[t].kids[i];
      assert r[t].kids[i] == k && k < |b| && k != t;
      assert r[k] == b[k];
    }
  }

  /** The tags of the children of `S` are not changed by moving some of
      them, so covering the first and the tags of the rest after the move
      covers them all. */
  lemma CoverStep(s: Doc, s1: Doc, ks: seq<Node>, r: Doc, t: Node)
    requires Kept(s, s1) && ks != [] && forall j :: 0 <= j < |ks| ==> ks[j] < |s|
    requires Valid(r) && t < |r| && HasKidTag(r, t, s[ks[0]].tag)
    requires forall j :: 0 <= j < |ks[1..]| ==> HasKidTag(r, t, s1[ks[1..][j]].tag)
    ensures forall j :: 0 <= j < |ks| ==> HasKidTag(r, t, s[ks[j]].tag)
  {
    forall j | 1 <= j < |ks| ensures HasKidTag(r, t, s[ks[j]].tag) {
      assert ks[j] == ks[1..][j - 1];
      assert s1[ks[j]].tag == s[ks[j]].tag;
    }
  }

  /** A tag among the children of `t` stays there when the document grows. */
  lemma KidTagStays(b: Doc, r: Doc, t: Node, tag: Tag)
    requires Valid(b) && Valid(r) && t < |b| && Extends(b, r) && HasKidTag(b, t, tag)
    ensures HasKidTag(r, t, tag)
  {
    var i :| 0 <= i < |b[t].kids| && b[b[t].kids[i]].tag == tag;
    assert r[t].kids[i] == b[t].kids[i];
  }

  lemma NewTagsTrans(a: Doc, b: Doc, c: Doc, t: Node)
    requires Valid(a) && Valid(b) && Valid(c) && t < |a| && Extends(a, b) && Extends(b, c)
    requires forall k :: 0 <= k < |b| && k != t ==> c[k] == b[k]
    requires NewTags(a, b, t) && NewTags(b, c, t)
    ensures NewTags(a, c, t)
  {
    forall i, j | 0 <= i < j < |c[t].kids| && |a[t].kids| <= j
      ensures c[c[t].kids[i]].tag != c[c[t].kids[j]].tag
    {
      if j < |b[t].kids| {
        assert c[t].kids[i] == b[t].kids[i] && c[t].kids[j] == b[t].kids[j];
        assert b[t].kids[i] != t && b[t].kids[j] != t;
      }
    }
  }

  // ---------------------------------------------------------------------
  // What a target receives

  /** The target gains, after its own children, the trees of the appended
      children of `S`, intact and in order. */
  lemma {:induction false} MergeKidsTrees(st: Docs, t: Node, x: Node, ks: seq<Node>)
    requires Good(st) && t < |st.base| && st.base[t].tag.Elem? && x < |st.derived|
    requires Distinct(ks) && forall j :: 0 <= j < |ks| ==> ks[j] in st.derived[x].kids
    ensures Gains(st.base, MergeKids(st, t, x, ks).base, t, st.derived, Appended(st, t, x, ks))
    decreases |ks|, 1
  {
    var r := MergeKids(st, t, x, ks);
    if ks == [] {
      assert r.base[t].kids[|st.base[t].kids|..] == [];
    } else if HasKidTag(st.base, t, st.derived[ks[0]].tag) {
      NextKids(st.derived, x, ks, st.derived);
      assert r == MergeKids(st, t, x, ks[1..]);
      assert Appended(st, t, x, ks) == Appended(st, t, x, ks[1..]);
      MergeKidsTrees(st, t, x, ks[1..]);
    } else {
      MergeKidsTreesMove(st, t, x, ks);
    }
  }

  /** MergeKidsTrees for a turn that appends the first child `ks[0]`. */
  lemma {:induction false} MergeKidsTreesMove(st: Docs, t: Node, x: Node, ks: seq<Node>)
    requires Good(st) && t < |st.base| && st.base[t].tag.Elem? && x < |st.derived|
    requires Distinct(ks) && forall j :: 0 <= j < |ks| ==> ks[j] in st.derived[x].kids
    requires ks != [] && !HasKidTag(st.base, t, st.derived[ks[0]].tag)
    ensures Gains(st.base, MergeKids(st, t, x, ks).base, t, st.derived, Appended(st, t, x, ks))
    decreases |ks|, 0
  {
    var sc := ks[0];
    var r := MergeKids(st, t, x, ks);
    var st1 := MoveKid(st, t, x, sc);
    NextKids(st.derived, x, ks, st1.derived);
    assert r == MergeKids(st1, t, x, ks[1..]);
    var a := Appended(st1, t, x, ks[1..]);
    assert Appended(st, t, x, ks) == [sc] + a;
    MergeKidsTrees(st1, t, x, ks[1..]);
    assert forall k :: k in a ==> k in ks;
    MergeKidsMoved(st, st1, r, t, x, sc, a);
  }

  /** The turn that appends `sc`: its tree comes first, then those of the
      children appended later. */
  lemma MergeKidsMoved(st: Docs, st1: Docs, r: Docs, t: Node, x: Node, sc: Node, a: seq<Node>)
    requires Good(st) && t < |st.base| && st.base[t].tag.Elem? && x < |st.derived| && sc in st.derived[x].kids
    requires st1 == MoveKid(st, t, x, sc) && Good(r)
    requires forall j :: 0 <= j < |a| ==> a[j] in st.derived[x].kids
    requires Extends(st1.base, r.base) && forall y :: 0 <= y < |st1.base| && y != t ==> r.base[y] == st1.base[y]
    requires Gains(st1.base, r.base, t, st1.derived, a)
    ensures Gains(st.base, r.base, t, st.derived, [sc] + a)
  {
    MoveKidLinks(st, t, x, sc);
    var ms := [sc] + a;
    assert ms[0] == sc && ms[1..] == a;
    assert forall j :: 1 <= j < |ms| ==> ms[j] == a[j - 1];
    AddPolicy.MoveKidsStep(st, st1, r, t, x, ms);
  }

  /** Appending a child adds exactly its tag to the tags among the
      target's children. */
  lemma MoveKidTags(st: Docs, t: Node, x: Node, sc: Node, tag: Tag)
    requires Good(st) && t < |st.base| && st.base[t].tag.Elem? && x < |st.derived| && sc in st.derived[x].kids
    ensures HasKidTag(MoveKid(st, t, x, sc).base, t, tag) <==>
      HasKidTag(st.base, t, tag) || tag == st.derived[sc].tag
  {
    var b := st.base;
    var r := MoveKid(st, t, x, sc).base;
    if HasKidTag(b, t, tag) {
      KidTagStays(b, r, t, tag);
    }
    if tag == st.derived[sc].tag {
      assert r[t].kids[|b[t].kids|] == |b|;
    }
    if HasKidTag(r, t, tag) {
      var i :| 0 <= i < |r[t].kids| && r[r[t].kids[i]].tag == tag;
      if i < |b[t].kids| {
        var k := b[t].kids[i];
        assert r[t].kids[i] == k && k < |b| && k != t;
      }
    }
  }

  /** `ks[j]` brings a tag that no child of `t` has and no earlier child
      among `ks` has. */
  ghost predicate FreshAt(b: Doc, t: Node, s: Doc, ks: seq<Node>, j: nat)
    requires Valid(b) && t < |b| && j < |ks| && forall i :: 0 <= i < |ks| ==> ks[i] < |s|
  {
    !HasKidTag(b, t, s[ks[j]].tag) && forall i :: 0 <= i < j ==> s[ks[i]].tag != s[ks[j]].tag
  }

  /** A child of `S` is appended exactly when no child of the target has
      its tag beforehand and no earlier child of `S` has it. */
  lemma {:induction false} AppendedMem(st: Docs, t: Node, x: Node, ks: seq<Node>, j: nat)
    requires Good(st) && t < |st.base| && st.base[t].tag.Elem? && x < |st.derived|
    requires Distinct(ks) && forall j :: 0 <= j < |ks| ==> ks[j] in st.derived[x].kids
    requires j < |ks|
    ensures AllIn(st.derived, ks)
    ensures ks[j] in Appended(st, t, x, ks) <==> FreshAt(st.base, t, st.derived, ks, j)
    decreases |ks|, 2
  {
    KidsAllIn(st.derived, x, ks);
    NextKids(st.derived, x, ks, st.derived);
    if j == 0 {
      assert ks[0] !in ks[1..];
    } else if HasKidTag(st.base, t, st.derived[ks[0]].tag) {
      AppendedMemSkip(st, t, x, ks, j);
    } else {
      AppendedMemMove(st, t, x, ks, j);
    }
  }

  /** AppendedMem for a later child when the first one is skipped. */
  lemma {:induction false} AppendedMemSkip(st: Docs, t: Node, x: Node, ks: seq<Node>, j: nat)
    requires Good(st) && t < |st.base| && st.base[t].tag.Elem? && x < |st.derived|
    requires Distinct(ks) && forall j :: 0 <= j < |ks| ==> ks[j] in st.derived[x].kids
    requires 0 < j < |ks| && HasKidTag(st.base, t, st.derived[ks[0]].tag)
    ensures AllIn(st.derived, ks)
    ensures ks[j] in Appended(st, t, x, ks) <==> FreshAt(st.base, t, st.derived, ks, j)
    decreases |ks|, 1
  {
    KidsAllIn(st.derived, x, ks);
    AppendedSkip(st, t, x, ks);
    var k := ks[1..][j - 1];
    assert k == ks[j];
    var a1 := Appended(st, t, x, ks[1..]);
    assert k in a1 <==> FreshAt(st.base, t, st.derived, ks[1..], j - 1) by {
      AppendedMem(st, t, x, ks[1..], j - 1);
    }
    assert FreshAt(st.base, t, st.derived, ks[1..], j - 1) <==> FreshAt(st.base, t, st.derived, ks, j) by {
      TagsBeforeSkip(st.base, st.derived, t, ks, j);
    }
  }

  /** A first child whose tag the target has is not appended. */
  lemma AppendedSkip(st: Docs, t: Node, x: Node, ks: seq<Node>)
    requires Good(st) && t < |st.base| && st.base[t].tag.Elem? && x < |st.derived|
    requires Distinct(ks) && forall j :: 0 <= j < |ks| ==> ks[j] in st.derived[x].kids
    requires ks != [] && HasKidTag(st.base, t, st.derived[ks[0]].tag)
    ensures Distinct(ks[1..]) && forall j :: 0 <= j < |ks[1..]| ==> ks[1..][j] in st.derived[x].kids
    ensures Appended(st, t, x, ks) == Appended(st, t, x, ks[1..])
  {
    NextKids(st.derived, x, ks, st.derived);
  }

  lemma KidsAllIn(s: Doc, x: Node, ks: seq<Node>)
    requires Valid(s) && x < |s| && forall j :: 0 <= j < |ks| ==> ks[j] in s[x].kids
    ensures AllIn(s, ks)
  {
    forall j | 0 <= j < |ks| ensures ks[j] < |s| {
      KidUp(s, x, ks[j]);
    }
  }

  /** AppendedMem for a later child when the first one is appended. */
  lemma {:induction false} AppendedMemMove(st: Docs, t: Node, x: Node, ks: seq<Node>, j: nat)
    requires Good(st) && t < |st.base| && st.base[t].tag.Elem? && x < |st.derived|
    requires Distinct(ks) && forall j :: 0 <= j < |ks| ==> ks[j] in st.derived[x].kids
    requires 0 < j < |ks| && !HasKidTag(st.base, t, st.derived[ks[0]].tag)
    ensures AllIn(st.derived, ks)
    ensures ks[j] in Appended(st, t, x, ks) <==> FreshAt(st.base, t, st.derived, ks, j)
    decreases |ks|, 1
  {
    KidsAllIn(st.derived, x, ks);
    var st1 := MoveKid(st, t, x, ks[0]);
    AppendedMove(st, t, x, ks);
    MoveKidTags(st, t, x, ks[0], st.derived[ks[j]].tag);
    AppendedMemAfter(st, st1, t, x, ks, j);
    assert ks[j] != ks[0];
  }

  /** The later children of `S`, taken in the state `st1` after the first
      one was moved. */
  lemma {:induction false} AppendedMemAfter(st: Docs, st1: Docs, t: Node, x: Node, ks: seq<Node>, j: nat)
    requires Good(st) && t < |st.base| && x < |st.derived| && 0 < j < |ks| && AllIn(st.derived, ks)
    requires Good(st1) && t < |st1.base| && st1.base[t].tag.Elem? && x < |st1.derived| && Kept(st.derived, st1.derived)
    requires Distinct(ks[1..]) && forall i :: 0 <= i < |ks[1..]| ==> ks[1..][i] in st1.derived[x].kids
    requires HasKidTag(st1.base, t, st.derived[ks[j]].tag) <==>
      HasKidTag(st.base, t, st.derived[ks[j]].tag) || st.derived[ks[0]].tag == st.derived[ks[j]].tag
    ensures ks[j] in Appended(st1, t, x, ks[1..]) <==> FreshAt(st.base, t, st.derived, ks, j)
    decreases |ks|, 0
  {
    var k := ks[1..][j - 1];
    assert k == ks[j];
    AllInKept(st.derived, st1.derived, ks);
    assert k in Appended(st1, t, x, ks[1..]) <==> FreshAt(st1.base, t, st1.derived, ks[1..], j - 1) by {
      AppendedMem(st1, t, x, ks[1..], j - 1);
    }
    assert FreshAt(st1.base, t, st1.derived, ks[1..], j - 1) <==> FreshAt(st.base, t, st.derived, ks, j) by {
      TagsBefore(st.base, st1.base, st.derived, st1.derived, t, ks, j);
    }
  }

  lemma AllInKept(s: Doc, s1: Doc, ks: seq<Node>)
    requires Kept(s, s1) && AllIn(s, ks) && ks != []
    ensures AllIn(s1, ks[1..])
  {
  }

  /** A first child whose tag the target lacks is appended, and the rest
      are taken in the state after its move. */
  lemma AppendedMove(st: Docs, t: Node, x: Node, ks: seq<Node>)
    requires Good(st) && t < |st.base| && st.base[t].tag.Elem? && x < |st.derived|
    requires Distinct(ks) && forall j :: 0 <= j < |ks| ==> ks[j] in st.derived[x].kids
    requires ks != [] && !HasKidTag(st.base, t, st.derived[ks[0]].tag)
    ensures var st1 := MoveKid(st, t, x, ks[0]);
      Distinct(ks[1..]) && (forall j :: 0 <= j < |ks[1..]| ==> ks[1..][j] in st1.derived[x].kids) &&
      Appended(st, t, x, ks) == [ks[0]] + Appended(st1, t, x, ks[1..])
  {
    var st1 := MoveKid(st, t, x, ks[0]);
    NextKids(st.derived, x, ks, st1.derived);
  }

  /** FreshAt for `ks[j]` is FreshAt among the later children when the tag
      of the first one is already there. */
  lemma TagsBeforeSkip(b: Doc, s: Doc, t: Node, ks: seq<Node>, j: nat)
    requires Valid(b) && t < |b| && 0 < j < |ks| && forall i :: 0 <= i < |ks| ==> ks[i] < |s|
    requires HasKidTag(b, t, s[ks[0]].tag)
    ensures FreshAt(b, t, s, ks[1..], j - 1) <==> FreshAt(b, t, s, ks, j)
  {
    assert ks[1..][j - 1] == ks[j];
    assert forall i :: 0 <= i < j - 1 ==> ks[1..][i] == ks[i + 1];
  }

  /** FreshAt for `ks[j]` splits into the first child of `S` and FreshAt for
      the rest, evaluated after that child's turn. */
  lemma TagsBefore(b: Doc, b1: Doc, s: Doc, s1: Doc, t: Node, ks: seq<Node>, j: nat)
    requires Valid(b) && Valid(b1) && t < |b| && t < |b1| && Kept(s, s1)
    requires 0 < j < |ks| && forall i :: 0 <= i < |ks| ==> ks[i] < |s|
    requires HasKidTag(b1, t, s[ks[j]].tag) <==> HasKidTag(b, t, s[ks[j]].tag) || s[ks[0]].tag == s[ks[j]].tag
    ensures FreshAt(b1, t, s1, ks[1..], j - 1) <==> FreshAt(b, t, s, ks, j)
  {
    assert ks[1..][j - 1] == ks[j];
    assert forall i :: 0 <= i < j - 1 ==> ks[1..][i] == ks[i + 1];
  }

  // ---------------------------------------------------------------------
  // Every matching target ends up with the tags left in `S`

  /** Children of `S` only leave it. */
  lemma {:induction false} MergeKidsLeave(st: Docs, t: Node, x: Node, ks: seq<Node>)
    requires Good(st) && t < |st.base| && st.base[t].tag.Elem? && x < |st.derived|
    requires Distinct(ks) && forall j :: 0 <= j < |ks| ==> ks[j] in st.derived[x].kids
    ensures forall k :: k in MergeKids(st, t, x, ks).derived[x].kids ==> k in st.derived[x].kids
    decreases |ks|
  {
    if ks != [] {
      var sc := ks[0];
      NextKids(st.derived, x, ks, st.derived);
      if HasKidTag(st.base, t, st.derived[sc].tag) {
        MergeKidsLeave(st, t, x, ks[1..]);
      } else {
        var st1 := MoveKid(st, t, x, sc);
        NextKids(st.derived, x, ks, st1.derived);
        MergeKidsLeave(st1, t, x, ks[1..]);
      }
    }
  }

  lemma {:induction false} MergeTargetsLeave(st: Docs, x: Node, l: seq<Node>, exp: string)
    requires Good(st) && x < |st.derived| && AllIn(st.base, l)
    requires forall j :: 0 <= j < |l| ==> st.base[l[j]].tag.Elem?
    ensures forall k :: k in MergeTargets(st, x, l, exp).derived[x].kids ==> k in st.derived[x].kids
    decreases |l|
  {
    if l != [] {
      assert forall i :: 0 <= i < |l[1..]| ==> l[1..][i] == l[i + 1];
      if XPathOf(st.base, l[0]) == exp {
        var st1 := MergeKids(st, l[0], x, st.derived[x].kids);
        MergeKidsLeave(st, l[0], x, st.derived[x].kids);
        MergeTargetsLeave(st1, x, l[1..], exp);
      } else {
        MergeTargetsLeave(st, x, l[1..], exp);
      }
    }
  }

  /** Each target on the path has, afterwards, a child with the tag of every
      child that `S` still has. */
  lemma {:induction false} MergeTargetsCover(st: Docs, x: Node, l: seq<Node>, exp: string, j: nat, k: Node)
    requires Good(st) && x < |st.derived| && AllIn(st.base, l)
    requires forall j :: 0 <= j < |l| ==> st.base[l[j]].tag.Elem?
    requires j < |l| && XPathOf(st.base, l[j]) == exp
    requires k in MergeTargets(st, x, l, exp).derived[x].kids
    ensures k < |st.derived| && HasKidTag(MergeTargets(st, x, l, exp).base, l[j], st.derived[k].tag)
    decreases |l|
  {
    var r := MergeTargets(st, x, l, exp);
    if j == 0 {
      MergeTargetsHead(st, x, l, exp, k);
    } else {
      var st1 := if XPathOf(st.base, l[0]) == exp then MergeKids(st, l[0], x, st.derived[x].kids) else st;
      assert r == MergeTargets(st1, x, l[1..], exp);
      TargetsRest(st.base, st1.base, l, j);
      assert k < |st1.derived| && HasKidTag(r.base, l[j], st1.derived[k].tag) by {
        MergeTargetsCover(st1, x, l[1..], exp, j - 1, k);
      }
      assert st1.derived[k].tag == st.derived[k].tag;
    }
  }

  /** The targets after the first are still elements of the grown tree, and
      the `j`-th keeps its path. */
  lemma TargetsRest(b: Doc, b1: Doc, l: seq<Node>, j: nat)
    requires Valid(b) && Valid(b1) && Extends(b, b1) && AllIn(b, l) && 0 < j < |l|
    requires forall j :: 0 <= j < |l| ==> b[l[j]].tag.Elem?
    ensures AllIn(b1, l[1..]) && forall i :: 0 <= i < |l[1..]| ==> b1[l[1..][i]].tag.Elem?
    ensures l[1..][j - 1] == l[j] && XPathOf(b1, l[j]) == XPathOf(b, l[j])
  {
    assert forall i :: 0 <= i < |l[1..]| ==> l[1..][i] == l[i + 1];
    PathStays(b, b1, l[j]);
  }

  /** MergeTargetsCover for the first target. */
  lemma MergeTargetsHead(st: Docs, x: Node, l: seq<Node>, exp: string, k: Node)
    requires Good(st) && x < |st.derived| && AllIn(st.base, l)
    requires forall j :: 0 <= j < |l| ==> st.base[l[j]].tag.Elem?
    requires l != [] && XPathOf(st.base, l[0]) == exp
    requires k in MergeTargets(st, x, l, exp).derived[x].kids
    ensures k < |st.derived| && HasKidTag(MergeTargets(st, x, l, exp).base, l[0], st.derived[k].tag)
  {
    var ks := st.derived[x].kids;
    var st1 := MergeKids(st, l[0], x, ks);
    var r := MergeTargets(st, x, l, exp);
    assert r == MergeTargets(st1, x, l[1..], exp);
    KidsIn(st.derived, x);
    MergeTargetsLeave(st1, x, l[1..], exp);
    MergeKidsLeave(st, l[0], x, ks);
    MergeKidsCover(st, l[0], x, ks);
    var i :| 0 <= i < |ks| && ks[i] == k;
    KidTagStays(st1.base, r.base, l[0], st.derived[k].tag);
  }

  /** A growing tree keeps the path of each old element. */
  lemma PathStays(b: Doc, b1: Doc, y: Node)
    requires Valid(b) && Valid(b1) && Extends(b, b1) && y < |b| && b[y].tag.Elem?
    ensures b1[y].tag.Elem? && XPathOf(b1, y) == XPathOf(b, y)
  {
    PathTagsFrame(b, b1, y);
  }

  /** The converse of MergeOnlyMatched: every element of the tree with the
      tag of `S`, its attributes when it has any, and the path of `S` without
      the marker segment holds, afterwards, a child with the tag of every
      child that `S` did not give away. */
  lemma MergeCovers(st: Docs, e: Node, frame: string, x: Node, t: Node, k: Node)
    requires Good(st) && e < |st.derived| && AllIn(st.derived, st.derived[e].kids)
    requires FirstElement(st.derived, st.derived[e].kids) == Some(x)
    requires t < |st.base| && Below(st.base, 0, t) && Matches(st.base, t, st.derived[x].tag, st.derived[x].attrs)
    requires XPathOf(st.base, t) == StripFrame(XPathOf(st.derived, x), frame)
    requires k in Merge(st, e, frame).derived[x].kids
    ensures k < |st.derived| && HasKidTag(Merge(st, e, frame).base, t, st.derived[k].tag)
  {
    var l := FindAll(st.base, st.derived[x].tag, 0, st.derived[x].attrs);
    MergeIsTargets(st, e, frame, x);
    FindAllMem(st.base, st.derived[x].tag, 0, st.derived[x].attrs, t);
    var j :| 0 <= j < |l| && l[j] == t;
    MergeTargetsCover(st, x, l, StripFrame(XPathOf(st.derived, x), frame), j, k);
  }

  /** With a first element `S`, `_merge` is the loop over the targets found for it. */
  lemma MergeIsTargets(st: Docs, e: Node, frame: string, x: Node)
    requires Good(st) && e < |st.derived| && AllIn(st.derived, st.derived[e].kids)
    requires FirstElement(st.derived, st.derived[e].kids) == Some(x)
    ensures x < |st.derived| && AllIn(st.base, FindAll(st.base, st.derived[x].tag, 0, st.derived[x].attrs))
    ensures forall j :: 0 <= j < |FindAll(st.base, st.derived[x].tag, 0, st.derived[x].attrs)| ==>
      st.base[FindAll(st.base, st.derived[x].tag, 0, st.derived[x].attrs)[j]].tag.Elem?
    ensures Merge(st, e, frame) ==
      MergeTargets(st, x, FindAll(st.base, st.derived[x].tag, 0, st.derived[x].attrs), StripFrame(XPathOf(st.derived, x), frame))
  {
    FindAllTagged(st.base, st.derived[x].tag, st.derived[x].attrs);
  }
}
