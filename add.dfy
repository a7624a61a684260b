/** The `add` policy (`_add` in descr.py). For every child `c` of the policy
    element, in the order they were when the loop started:
      - every element of `p_dom` with the tag of `c` and exactly its
        attributes receives the children `c` still has (so the first such
        element takes them all);
      - if afterwards no element of `p_dom` with that tag has exactly the
        attributes of `c`, `c` itself is appended to the parent of the element
        the variable `tc` last held.
    `tc` is a Python loop variable: it keeps its value from one child to the
    next, and reading it before any loop bound it raises UnboundLocalError. */
module AddPolicy {
  import opened Wrappers
  import opened Xml
  import opened Queries
  import opened Policy

  /** The state `for c in e` carries from one child to the next. */
  datatype Pass = Pass(docs: Docs, tc: Option<Node>)

  /** `for mv_c in c: tc.append(mv_c)` over the children `ks` of the derived
      node `c`, as they were when the loop started. */
  ghost function MoveKids(st: Docs, t: Node, c: Node, ks: seq<Node>): (r: Docs)
    requires Good(st) && t < |st.base| && c < |st.derived| && st.base[t].tag == st.derived[c].tag
    requires Distinct(ks) && forall j :: 0 <= j < |ks| ==> ks[j] in st.derived[c].kids
    ensures Good(r) && Extends(st.base, r.base) && Kept(st.derived, r.derived)
    ensures forall y :: 0 <= y < |st.base| && y != t ==> r.base[y] == st.base[y]
    decreases |ks|
  {
    if ks == [] then st
    else
      KidUp(st.derived, c, ks[0]);
      var st1 := MoveKid(st, t, c, ks[0]);
      NextKids(st.derived, c, ks, st1.derived);
      var r := MoveKids(st1, t, c, ks[1..]);
      ExtendsTrans(st.base, st1.base, r.base);
      KeptTrans(st.derived, st1.derived, r.derived);
      r
  }

  /** In the derived document only the moved children lose their parent. */
  lemma {:induction false} MoveKidsLinks(st: Docs, t: Node, c: Node, ks: seq<Node>)
    requires Good(st) && t < |st.base| && c < |st.derived| && st.base[t].tag == st.derived[c].tag
    requires Distinct(ks) && forall j :: 0 <= j < |ks| ==> ks[j] in st.derived[c].kids
    ensures var r := MoveKids(st, t, c, ks);
      forall y :: 0 <= y < |st.derived| && y !in ks ==> r.derived[y].up == st.derived[y].up
    decreases |ks|
  {
    if ks != [] {
      KidUp(st.derived, c, ks[0]);
      var st1 := MoveKid(st, t, c, ks[0]);
      MoveKidLinks(st, t, c, ks[0]);
      NextKids(st.derived, c, ks, st1.derived);
      MoveKidsLinks(st1, t, c, ks[1..]);
      var r := MoveKids(st1, t, c, ks[1..]);
      assert MoveKids(st, t, c, ks) == r;
      forall y | 0 <= y < |st.derived| && y !in ks ensures r.derived[y].up == st.derived[y].up {
        assert y != ks[0] && y !in ks[1..];
      }
    }
  }

  /** Moving all the children of `c` leaves it with none. */
  lemma {:induction false} MoveKidsEmpties(st: Docs, t: Node, c: Node)
    requires Good(st) && t < |st.base| && c < |st.derived| && st.base[t].tag == st.derived[c].tag
    ensures MoveKids(st, t, c, st.derived[c].kids).derived[c].kids == []
    decreases |st.derived[c].kids|
  {
    var ks := st.derived[c].kids;
    if ks != [] {
      KidUp(st.derived, c, ks[0]);
      var st1 := MoveKid(st, t, c, ks[0]);
      NextKids(st.derived, c, ks, st1.derived);
      WithoutFirst(ks);
      assert st1.derived[c].kids == ks[1..];
      MoveKidsEmpties(st1, t, c);
    }
  }

  /** The moved children arrive intact and in order, after the children `t`
      already had. */
  lemma {:induction false} MoveKidsTrees(st: Docs, t: Node, c: Node, ks: seq<Node>)
    requires Good(st) && t < |st.base| && c < |st.derived| && st.base[t].tag == st.derived[c].tag
    requires Distinct(ks) && forall j :: 0 <= j < |ks| ==> ks[j] in st.derived[c].kids
    ensures AllIn(st.derived, ks)
    ensures var r := MoveKids(st, t, c, ks);
      Trees(r.base, r.base[t].kids[|st.base[t].kids|..]) == Trees(st.derived, ks)
    decreases |ks|
  {
    forall j | 0 <= j < |ks| ensures ks[j] < |st.derived| {
      KidUp(st.derived, c, ks[j]);
    }
    var r := MoveKids(st, t, c, ks);
    if ks == [] {
      assert r.base[t].kids[|st.base[t].kids|..] == [];
    } else {
      KidUp(st.derived, c, ks[0]);
      var st1 := MoveKid(st, t, c, ks[0]);
      MoveKidLinks(st, t, c, ks[0]);
      NextKids(st.derived, c, ks, st1.derived);
      assert r == MoveKids(st1, t, c, ks[1..]);
      MoveKidsTrees(st1, t, c, ks[1..]);
      assert Gains(st1.base, r.base, t, st1.derived, ks[1..]);
      MoveKidsStep(st, st1, r, t, c, ks);
    }
  }

  /** One step of moving children one by one: the first moved child followed
      by the others, each arriving intact. */
  lemma MoveKidsStep(st: Docs, st1: Docs, r: Docs, t: Node, c: Node, ks: seq<Node>)
    requires Good(st) && Good(st1) && Good(r) && t < |st.base| && c < |st.derived| && ks != []
    requires forall j :: 0 <= j < |ks| ==> ks[j] in st.derived[c].kids
    requires st.base[t].tag.Elem? && st1 == MoveKid(st, t, c, ks[0])
    requires forall y :: 0 <= y < |st.derived| && y != c ==> Same(st1.derived[y], st.derived[y])
    requires Extends(st1.base, r.base) && forall y :: 0 <= y < |st1.base| && y != t ==> r.base[y] == st1.base[y]
    requires Gains(st1.base, r.base, t, st1.derived, ks[1..])
    ensures Gains(st.base, r.base, t, st.derived, ks)
  {
    ToTreeFrame(st1.base, r.base, |st.base|);
    OtherKidsTrees(st.derived, st1.derived, c, ks[1..]);
    assert ks == [ks[0]] + ks[1..];
    GainsCons(st.base, st1.base, r.base, st.derived, st1.derived, t, ks[0], ks[1..]);
  }

  /** The copy of `k` appended first, then the trees of `ks`. */
  lemma GainsCons(b: Doc, b1: Doc, r: Doc, s: Doc, s1: Doc, t: Node, k: Node, ks: seq<Node>)
    requires Valid(b) && Valid(s) && t < |b| && |b| < |r| && k < |s|
    requires Gains(b1, r, t, s1, ks) && AllIn(s, ks) && Trees(s1, ks) == Trees(s, ks)
    requires b1[t].kids == b[t].kids + [|b|] && b1[t].kids <= r[t].kids
    requires ToTree(r, |b|) == ToTree(s, k)
    ensures Gains(b, r, t, s, [k] + ks)
  {
    var a := |b[t].kids|;
    assert r[t].kids[a] == |b|;
    SliceCons(r[t].kids, a);
    TreesStep(r, s, |b|, k, r[t].kids[a + 1..], ks);
  }

  /** Children of `c` keep their trees when only `c` itself changed. */
  lemma OtherKidsTrees(s: Doc, s1: Doc, c: Node, ks: seq<Node>)
    requires Valid(s) && Valid(s1) && |s| == |s1| && c < |s|
    requires forall j :: 0 <= j < |ks| ==> ks[j] in s[c].kids
    requires forall y :: 0 <= y < |s| && y != c ==> Same(s1[y], s[y])
    ensures AllIn(s, ks) && Trees(s1, ks) == Trees(s, ks)
  {
    forall j | 0 <= j < |ks| ensures ks[j] < |s| && ToTree(s1, ks[j]) == ToTree(s, ks[j]) {
      KidUp(s, c, ks[j]);
      ToTreeFrame(s, s1, ks[j]);
    }
  }

  /** The first loop of `_add` for the child `c`: each entry of `l`, the
      same-tag elements found before the loop, that has exactly the
      attributes of `c` receives the children `c` has at that moment. */
  ghost function MoveToExact(st: Docs, c: Node, l: seq<Node>): (r: Docs)
    requires Good(st) && c < |st.derived| && AllIn(st.base, l)
    requires forall j :: 0 <= j < |l| ==> st.base[l[j]].tag == st.derived[c].tag
    ensures Good(r) && Extends(st.base, r.base) && Kept(st.derived, r.derived)
    decreases |l|
  {
    if l == [] then st
    else if st.base[l[0]].attrs != st.derived[c].attrs then MoveToExact(st, c, l[1..])
    else
      var st1 := MoveKids(st, l[0], c, st.derived[c].kids);
      var r := MoveToExact(st1, c, l[1..]);
      ExtendsTrans(st.base, st1.base, r.base);
      KeptTrans(st.derived, st1.derived, r.derived);
      r
  }

  /** One turn of the loop `MoveToExact` folds: the first element of `l`
      takes the children of `c` or not, and the rest of the list is left. */
  lemma MoveToExactNext(st: Docs, c: Node, l: seq<Node>, st1: Docs)
    requires Good(st) && c < |st.derived| && AllIn(st.base, l) && l != []
    requires forall j :: 0 <= j < |l| ==> st.base[l[j]].tag == st.derived[c].tag
    requires st1 == if st.base[l[0]].attrs == st.derived[c].attrs
      then MoveKids(st, l[0], c, st.derived[c].kids) else st
    ensures Good(st1) && c < |st1.derived| && AllIn(st1.base, l[1..])
    ensures forall j :: 0 <= j < |l[1..]| ==> st1.base[l[1..][j]].tag == st1.derived[c].tag
    ensures MoveToExact(st, c, l) == MoveToExact(st1, c, l[1..])
  {
  }

  /** Only children of `c` lose their parent; `c` keeps its own. */
  lemma {:induction false} MoveToExactLinks(st: Docs, c: Node, l: seq<Node>)
    requires Good(st) && c < |st.derived| && AllIn(st.base, l)
    requires forall j :: 0 <= j < |l| ==> st.base[l[j]].tag == st.derived[c].tag
    ensures forall y :: 0 <= y < |st.derived| && st.derived[y].up != Some(c) ==>
      MoveToExact(st, c, l).derived[y].up == st.derived[y].up
    decreases |l|
  {
    if l != [] {
      if st.base[l[0]].attrs != st.derived[c].attrs {
        MoveToExactLinks(st, c, l[1..]);
      } else {
        var st1 := MoveKids(st, l[0], c, st.derived[c].kids);
        assert forall y :: 0 <= y < |st.derived| && st.derived[y].up != Some(c) ==>
          st1.derived[y].up == st.derived[y].up by {
          MoveKidsLinks(st, l[0], c, st.derived[c].kids);
          forall y | 0 <= y < |st.derived| && y in st.derived[c].kids ensures st.derived[y].up == Some(c) {
            KidUp(st.derived, c, y);
          }
        }
        MoveToExactLinks(st1, c, l[1..]);
      }
    }
  }

  /** The first of `l` whose attributes are exactly `a`: where the search loop
      of `_add` breaks, leaving it in `tc`. */
  ghost function FirstExact(b: Doc, l: seq<Node>, a: Attrs): (r: Option<Node>)
    requires AllIn(b, l)
    ensures r.Some? ==> r.value in l && b[r.value].attrs == a
    ensures r.None? <==> forall j :: 0 <= j < |l| ==> b[l[j]].attrs != a
  {
    if l == [] then None
    else if b[l[0]].attrs == a then Some(l[0])
    else
      var r := FirstExact(b, l[1..], a);
      assert forall j :: 1 <= j < |l| ==> l[j] == l[1..][j - 1];
      r
  }

  /** `p = get_parent(p_dom, tc); p is not None and p.append(c)`. */
  ghost function Aggregate(st: Docs, c: Node, t: Node): (r: Docs)
    requires Good(st) && c < |st.derived| && st.derived[c].up.Some? && t < |st.base|
    ensures Good(r) && Extends(st.base, r.base) && Kept(st.derived, r.derived)
  {
    match ParentIn(st.base, 0, t)
    case None => st
    case Some(p) =>
      KidUp(st.base, p, t);
      MoveKid(st, p, st.derived[c].up.value, c)
  }

  /** One turn of `for c in e`, with `tc` as the previous turns left it. */
  ghost function AddOne(st: Docs, c: Node, tc: Option<Node>): (r: Result<Pass, Failure>)
    requires Good(st) && c < |st.derived| && st.derived[c].up.Some?
    requires tc.Some? ==> tc.value < |st.base|
    ensures r.Ok? ==> Good(r.value.docs) && Extends(st.base, r.value.docs.base) && Kept(st.derived, r.value.docs.derived)
    ensures r.Ok? ==> r.value.tc.Some? && r.value.tc.value < |r.value.docs.base|
    ensures r.Err? ==> r.error == UnboundTc
  {
    var tag := st.derived[c].tag;
    var l1 := FindAll(st.base, tag, 0, map[]);
    FindAllTagged(st.base, tag, map[]);
    var st1 := MoveToExact(st, c, l1);
    MoveToExactLinks(st, c, l1);
    var l2 := FindAll(st1.base, tag, 0, map[]);
    match FirstExact(st1.base, l2, st.derived[c].attrs)
    case Some(t1) => Ok(Pass(st1, Some(t1)))
    case None =>
      var tc2 := if l2 != [] then Some(l2[|l2| - 1]) else tc;
      if tc2.None? then Err(UnboundTc)
      else
        var r := Aggregate(st1, c, tc2.value);
        ExtendsTrans(st.base, st1.base, r.base);
        KeptTrans(st.derived, st1.derived, r.derived);
        Ok(Pass(r, tc2))
  }

  /** A turn only unlinks `c` and children of `c` in the derived document. */
  lemma AddOneLinks(st: Docs, c: Node, tc: Option<Node>)
    requires Good(st) && c < |st.derived| && st.derived[c].up.Some?
    requires tc.Some? ==> tc.value < |st.base|
    ensures var r := AddOne(st, c, tc);
      r.Ok? ==> forall y :: 0 <= y < |st.derived| && y != c && st.derived[y].up != Some(c) ==>
        r.value.docs.derived[y].up == st.derived[y].up
  {
    var tag := st.derived[c].tag;
    var l1 := FindAll(st.base, tag, 0, map[]);
    FindAllTagged(st.base, tag, map[]);
    var st1 := MoveToExact(st, c, l1);
    MoveToExactLinks(st, c, l1);
    var l2 := FindAll(st1.base, tag, 0, map[]);
    var tc2 := if l2 != [] then Some(l2[|l2| - 1]) else tc;
    if FirstExact(st1.base, l2, st.derived[c].attrs).Some? {
      assert AddOne(st, c, tc).value.docs == st1;
    } else if tc2.Some? {
      assert AddOne(st, c, tc).value.docs == Aggregate(st1, c, tc2.value);
      AggregateLinks(st1, c, tc2.value);
    }
  }

  lemma AggregateLinks(st: Docs, c: Node, t: Node)
    requires Good(st) && c < |st.derived| && st.derived[c].up.Some? && t < |st.base|
    ensures forall y :: 0 <= y < |st.derived| && y != c ==> Aggregate(st, c, t).derived[y].up == st.derived[y].up
  {
    match ParentIn(st.base, 0, t)
    case None =>
    case Some(p) =>
      KidUp(st.base, p, t);
      MoveKidLinks(st, p, st.derived[c].up.value, c);
  }

  /** What `AddAll` needs of its arguments. */
  ghost predicate AddAllReady(st: Docs, e: Node, ks: seq<Node>, tc: Option<Node>)
  {
    Good(st) && e < |st.derived| && Distinct(ks) && (tc.Some? ==> tc.value < |st.base|) &&
    forall j :: 0 <= j < |ks| ==> ks[j] < |st.derived| && st.derived[ks[j]].up == Some(e)
  }

  /** A successful turn for the first child leaves the other children of
      `e` in place for the next turns. */
  lemma RestReady(st: Docs, e: Node, ks: seq<Node>, tc: Option<Node>, p: Pass)
    requires AddAllReady(st, e, ks, tc) && ks != []
    requires st.derived[ks[0]].up.Some? && AddOne(st, ks[0], tc) == Ok(p)
    ensures AddAllReady(p.docs, e, ks[1..], p.tc)
  {
    var c := ks[0];
    AddOneLinks(st, c, tc);
    var rest := ks[1..];
    assert e < c by {
      assert st.derived[c].up == Some(e);
    }
    forall j | 0 <= j < |rest| ensures rest[j] < |p.docs.derived| && p.docs.derived[rest[j]].up == Some(e) {
      assert rest[j] == ks[j + 1];
      assert rest[j] != c;
      assert st.derived[rest[j]].up == Some(e) != Some(c);
    }
    assert Distinct(rest) by {
      forall i, j | 0 <= i < j < |rest| ensures rest[i] != rest[j] {
        assert rest[i] == ks[i + 1] && rest[j] == ks[j + 1];
      }
    }
  }

  /** `for c in e` over the children `ks` of `e` as they were when the loop
      started; `tc` passes from one turn to the next. */
  ghost function AddAll(st: Docs, e: Node, ks: seq<Node>, tc: Option<Node>): (r: Result<Docs, Failure>)
    requires Good(st) && e < |st.derived| && Distinct(ks) && (tc.Some? ==> tc.value < |st.base|)
    requires forall j :: 0 <= j < |ks| ==> ks[j] < |st.derived| && st.derived[ks[j]].up == Some(e)
    ensures r.Ok? ==> Good(r.value) && Extends(st.base, r.value.base) && Kept(st.derived, r.value.derived)
    ensures r.Err? ==> r.error == UnboundTc
    decreases |ks|
  {
    if ks == [] then Ok(st)
    else
      match AddOne(st, ks[0], tc)
      case Err(f) => Err(f)
      case Ok(p) =>
        RestReady(st, e, ks, tc, p);
        var r := AddAll(p.docs, e, ks[1..], p.tc);
        if r.Ok? then
          ExtendsTrans(st.base, p.docs.base, r.value.base);
          KeptTrans(st.derived, p.docs.derived, r.value.derived);
          r
        else r
  }


  /** One turn of `for c in e`: a failing turn fails the rest, and a
      successful one leaves the remaining children where `AddAll` needs them. */
  lemma AddAllNext(st: Docs, e: Node, ks: seq<Node>, tc: Option<Node>)
    requires AddAllReady(st, e, ks, tc) && ks != []
    ensures ks[0] < |st.derived| && st.derived[ks[0]].up.Some?
    ensures AddOne(st, ks[0], tc).Err? ==> AddAll(st, e, ks, tc) == Err(AddOne(st, ks[0], tc).error)
    ensures AddOne(st, ks[0], tc).Ok? ==>
      var p := AddOne(st, ks[0], tc).value;
      AddAllReady(p.docs, e, ks[1..], p.tc) && AddAll(st, e, ks, tc) == AddAll(p.docs, e, ks[1..], p.tc)
  {
    if AddOne(st, ks[0], tc).Ok? {
      RestReady(st, e, ks, tc, AddOne(st, ks[0], tc).value);
    }
  }

  /** The specification of `_add` for the policy element `e`. */
  ghost function Add(st: Docs, e: Node): (r: Result<Docs, Failure>)
    requires Good(st) && e < |st.derived|
    ensures r.Ok? ==> Good(r.value) && Extends(st.base, r.value.base) && Kept(st.derived, r.value.derived)
    ensures r.Err? ==> r.error == UnboundTc
  {
    assert forall j :: 0 <= j < |st.derived[e].kids| ==> st.derived[st.derived[e].kids[j]].up == Some(e) by {
      forall j | 0 <= j < |st.derived[e].kids| ensures st.derived[st.derived[e].kids[j]].up == Some(e) {
        KidUp(st.derived, e, st.derived[e].kids[j]);
      }
    }
    AddAll(st, e, st.derived[e].kids, None)
  }

  // ---------------------------------------------------------------------
  // What `_add` does

  /** A search of the whole document still finds `m` once the document only
      grew. */
  lemma FoundAgain(b: Doc, r: Doc, tag: Tag, m: Node)
    requires Valid(b) && Valid(r) && Extends(b, r) && m in FindAll(b, tag, 0, map[])
    ensures m in FindAll(r, tag, 0, map[])
  {
    var l := FindAll(b, tag, 0, map[]);
    var j :| 0 <= j < |l| && l[j] == m;
    FindAllMem(b, tag, 0, map[], m);
    BelowFrame(b, r, 0, m);
    FindAllMem(r, tag, 0, map[], m);
  }

  /** A turn fails exactly when `tc` is read unbound: nothing in `p_dom` has
      the tag of `c`, and no earlier turn bound `tc`. */
  lemma AddOneUnbound(st: Docs, c: Node, tc: Option<Node>)
    requires Good(st) && c < |st.derived| && st.derived[c].up.Some?
    requires tc.Some? ==> tc.value < |st.base|
    ensures AddOne(st, c, tc).Err? <==> FindAll(st.base, st.derived[c].tag, 0, map[]) == [] && tc.None?
  {
    var tag := st.derived[c].tag;
    var l1 := FindAll(st.base, tag, 0, map[]);
    FindAllTagged(st.base, tag, map[]);
    var st1 := MoveToExact(st, c, l1);
    var l2 := FindAll(st1.base, tag, 0, map[]);
    if l1 == [] {
      assert st1 == st;
    } else {
      FoundAgain(st.base, st1.base, tag, l1[0]);
      assert l2 != [];
    }
  }

  /** Once `tc` is bound, or the first turn binds it, no turn fails. */
  lemma {:induction false} AddAllBound(st: Docs, e: Node, ks: seq<Node>, tc: Option<Node>)
    requires Good(st) && e < |st.derived| && Distinct(ks) && (tc.Some? ==> tc.value < |st.base|)
    requires forall j :: 0 <= j < |ks| ==> ks[j] < |st.derived| && st.derived[ks[j]].up == Some(e)
    requires tc.Some? || ks == [] || FindAll(st.base, st.derived[ks[0]].tag, 0, map[]) != []
    ensures AddAll(st, e, ks, tc).Ok?
    decreases |ks|
  {
    if ks != [] {
      var c := ks[0];
      AddOneUnbound(st, c, tc);
      var p := AddOne(st, c, tc).value;
      RestReady(st, e, ks, tc, p);
      AddAllBound(p.docs, e, ks[1..], p.tc);
    }
  }

  /** `_add` raises exactly when its first child has a tag that `p_dom` does
      not contain: every later child finds `tc` bound. */
  lemma AddFails(st: Docs, e: Node)
    requires Good(st) && e < |st.derived|
    ensures Add(st, e).Err? <==>
      st.derived[e].kids != [] && FindAll(st.base, st.derived[st.derived[e].kids[0]].tag, 0, map[]) == []
  {
    var ks := st.derived[e].kids;
    forall j | 0 <= j < |ks| ensures st.derived[ks[j]].up == Some(e) {
      KidUp(st.derived, e, ks[j]);
    }
    assert Add(st, e) == AddAll(st, e, ks, None);
    AddAllFails(st, e, ks);
  }

  lemma AddAllFails(st: Docs, e: Node, ks: seq<Node>)
    requires Good(st) && e < |st.derived| && Distinct(ks)
    requires forall j :: 0 <= j < |ks| ==> ks[j] < |st.derived| && st.derived[ks[j]].up == Some(e)
    ensures AddAll(st, e, ks, None).Err? <==> ks != [] && FindAll(st.base, st.derived[ks[0]].tag, 0, map[]) == []
  {
    if ks != [] && FindAll(st.base, st.derived[ks[0]].tag, 0, map[]) == [] {
      AddOneUnbound(st, ks[0], None);
    } else {
      AddAllBound(st, e, ks, None);
    }
  }

  /** With no children left in `c`, the first loop changes nothing. */
  lemma {:induction false} MoveToExactIdle(st: Docs, c: Node, l: seq<Node>)
    requires Good(st) && c < |st.derived| && AllIn(st.base, l)
    requires forall j :: 0 <= j < |l| ==> st.base[l[j]].tag == st.derived[c].tag
    requires st.derived[c].kids == []
    ensures MoveToExact(st, c, l) == st
    decreases |l|
  {
    if l != [] {
      MoveToExactIdle(st, c, l[1..]);
    }
  }

  /** With no element of exactly the attributes of `c`, the first loop
      changes nothing. */
  lemma {:induction false} MoveToExactSkip(st: Docs, c: Node, l: seq<Node>)
    requires Good(st) && c < |st.derived| && AllIn(st.base, l)
    requires forall j :: 0 <= j < |l| ==> st.base[l[j]].tag == st.derived[c].tag
    requires FirstExact(st.base, l, st.derived[c].attrs).None?
    ensures MoveToExact(st, c, l) == st
    decreases |l|
  {
    if l != [] {
      assert FirstExact(st.base, l, st.derived[c].attrs) == FirstExact(st.base, l[1..], st.derived[c].attrs);
      MoveToExactSkip(st, c, l[1..]);
    }
  }

  /** The first element with exactly the attributes of `c` takes all the
      children of `c`, in order, after its own; no other old cell changes. */
  lemma {:induction false} MoveToExactFirst(st: Docs, c: Node, l: seq<Node>, t1: Node)
    requires Good(st) && c < |st.derived| && AllIn(st.base, l)
    requires forall j :: 0 <= j < |l| ==> st.base[l[j]].tag == st.derived[c].tag
    requires FirstExact(st.base, l, st.derived[c].attrs) == Some(t1)
    ensures var r := MoveToExact(st, c, l);
      && r.derived[c].kids == []
      && (forall y :: 0 <= y < |st.base| && y != t1 ==> r.base[y] == st.base[y])
      && Trees(r.base, r.base[t1].kids[|st.base[t1].kids|..]) == Trees(st.derived, st.derived[c].kids)
    decreases |l|
  {
    if st.base[l[0]].attrs != st.derived[c].attrs {
      assert MoveToExact(st, c, l) == MoveToExact(st, c, l[1..]);
      assert FirstExact(st.base, l[1..], st.derived[c].attrs) == Some(t1);
      MoveToExactFirst(st, c, l[1..], t1);
    } else {
      MoveToExactHit(st, c, l);
    }
  }

  lemma MoveToExactHit(st: Docs, c: Node, l: seq<Node>)
    requires Good(st) && c < |st.derived| && AllIn(st.base, l) && l != []
    requires forall j :: 0 <= j < |l| ==> st.base[l[j]].tag == st.derived[c].tag
    requires st.base[l[0]].attrs == st.derived[c].attrs
    ensures var r := MoveToExact(st, c, l);
      && r.derived[c].kids == []
      && (forall y :: 0 <= y < |st.base| && y != l[0] ==> r.base[y] == st.base[y])
      && Trees(r.base, r.base[l[0]].kids[|st.base[l[0]].kids|..]) == Trees(st.derived, st.derived[c].kids)
  {
    var ks := st.derived[c].kids;
    var st1 := MoveKids(st, l[0], c, ks);
    MoveToExactNext(st, c, l, st1);
    MoveKidsEmpties(st, l[0], c);
    MoveKidsTrees(st, l[0], c, ks);
    MoveToExactIdle(st1, c, l[1..]);
  }

  /** An element of `p_dom` with the tag and exactly the attributes of `c`
      absorbs the children of `c`: the first such element gets them all,
      appended intact and in order after its own, and `c` itself stays where
      it is in the derived description. */
  lemma AddOneExact(st: Docs, c: Node, tc: Option<Node>, t1: Node)
    requires Good(st) && c < |st.derived| && st.derived[c].up.Some?
    requires tc.Some? ==> tc.value < |st.base|
    requires FirstExact(st.base, FindAll(st.base, st.derived[c].tag, 0, map[]), st.derived[c].attrs) == Some(t1)
    ensures var r := AddOne(st, c, tc);
      && r.Ok?
      && r.value.docs.derived[c].up == st.derived[c].up
      && r.value.docs.derived[c].kids == []
      && (forall y :: 0 <= y < |st.base| && y != t1 ==> r.value.docs.base[y] == st.base[y])
      && Trees(r.value.docs.base, r.value.docs.base[t1].kids[|st.base[t1].kids|..]) == Trees(st.derived, st.derived[c].kids)
  {
    var tag := st.derived[c].tag;
    var l1 := FindAll(st.base, tag, 0, map[]);
    FindAllTagged(st.base, tag, map[]);
    var st1 := MoveToExact(st, c, l1);
    MoveToExactLinks(st, c, l1);
    MoveToExactFirst(st, c, l1, t1);
    FoundAgain(st.base, st1.base, tag, t1);
    var l2 := FindAll(st1.base, tag, 0, map[]);
    var j :| 0 <= j < |l2| && l2[j] == t1;
    assert FirstExact(st1.base, l2, st.derived[c].attrs).Some?;
    assert AddOne(st, c, tc).value.docs == st1;
  }

  /** If no element of `p_dom` with the tag of `c` has exactly its attributes,
      `c` becomes, intact, the last child of the parent of the element `tc`
      holds: the last same-tag element, or the one an earlier turn left. */
  lemma AddOneAggregate(st: Docs, c: Node, tc: Option<Node>)
    requires Good(st) && c < |st.derived| && st.derived[c].up.Some?
    requires tc.Some? ==> tc.value < |st.base|
    requires var l1 := FindAll(st.base, st.derived[c].tag, 0, map[]);
      FirstExact(st.base, l1, st.derived[c].attrs).None? && (l1 != [] || tc.Some?)
    ensures var l1 := FindAll(st.base, st.derived[c].tag, 0, map[]);
      var t := if l1 != [] then l1[|l1| - 1] else tc.value;
      var r := AddOne(st, c, tc);
      && r == Ok(Pass(Aggregate(st, c, t), Some(t)))
      && (ParentIn(st.base, 0, t).None? ==> r.value.docs == st)
  {
    var tag := st.derived[c].tag;
    var l1 := FindAll(st.base, tag, 0, map[]);
    FindAllTagged(st.base, tag, map[]);
    MoveToExactSkip(st, c, l1);
    var t := if l1 != [] then l1[|l1| - 1] else tc.value;
    AggregateOrphan(st, c, t);
  }

  /** Without a parent for `t`, nothing moves: `p is not None` fails. */
  lemma AggregateOrphan(st: Docs, c: Node, t: Node)
    requires Good(st) && c < |st.derived| && st.derived[c].up.Some? && t < |st.base|
    ensures ParentIn(st.base, 0, t).None? ==> Aggregate(st, c, t) == st
  {
  }

  /** The move `Aggregate` makes: `c` becomes, intact, the new last child of
      the parent `p` of `t`; no other old cell of `p_dom` changes, and `c`
      leaves the derived description. */
  lemma AggregatePlaces(st: Docs, c: Node, t: Node, p: Node)
    requires Good(st) && c < |st.derived| && st.derived[c].up.Some? && t < |st.base|
    requires ParentIn(st.base, 0, t) == Some(p)
    ensures var r := Aggregate(st, c, t);
      && r.base[p].kids == st.base[p].kids + [|st.base|]
      && ToTree(r.base, |st.base|) == ToTree(st.derived, c)
      && (forall y :: 0 <= y < |st.base| && y != p ==> r.base[y] == st.base[y])
      && r.derived[c].up == None
  {
    KidUp(st.base, p, t);
    MoveKidLinks(st, p, st.derived[c].up.value, c);
  }
}
