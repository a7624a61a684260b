/** What the six inheritance policies of `ApplianceDescription` share: the
    pair of documents they work on and the exceptions they can raise. Each
    policy is specified in its own module as a fold over the lists the Python
    loops walk; the class in module Description runs those loops. */
module Policy {
  import opened Wrappers
  import opened Xml

  /** `p_dom`, the inherited description being edited, and `s_dom`, the
      derived description whose policy elements are applied to it. Moving a
      node of `s_dom` into `p_dom` changes both. */
  datatype Docs = Docs(base: Doc, derived: Doc)

  ghost predicate Good(st: Docs)
  {
    Valid(st.base) && Valid(st.derived)
  }

  /** The exceptions the engine raises, each named after its cause. Any of
      them propagates out of the constructor, so the partly edited documents
      are never seen again. */
  datatype Failure =
    | UnboundTc           // `_add`: `tc` read although no loop ever bound it (UnboundLocalError)
    | NoParent            // `.remove` called on the `None` that `getparent()` returned
    | NoText              // `_set`: the policy element has no text
    | BadYaml             // `_set`: a YAML error other than a scanner error
    | NotAttrs            // `_set`: the YAML value is not a mapping of strings to strings
    | BadXPath            // `_set`: the expression does not evaluate
    | NotElement          // `_set`: a selected result cannot carry attributes
    | NoPathAttr          // `_resolve`: the `inherit` element has no `path`
    | Missing(path: string)    // `_resolve`: the inherited file does not exist
    | Unreadable(path: string) // a description file that cannot be read or parsed
    | TooManyArgs         // a call with more positional arguments than the callee takes (TypeError)

  /** The derived document after a policy: same cells, same contents, only
      parent links and child lists may differ. */
  ghost predicate Kept(s: Doc, r: Doc)
  {
    |r| == |s| && forall y :: 0 <= y < |s| ==> r[y].tag == s[y].tag && r[y].attrs == s[y].attrs && r[y].text == s[y].text
  }

  /** `r` extends `b`: every old cell keeps its contents and its parent, and
      its children only grow at the end. */
  ghost predicate Extends(b: Doc, r: Doc)
  {
    |b| <= |r| && forall y :: 0 <= y < |b| ==>
      r[y].tag == b[y].tag && r[y].attrs == b[y].attrs && r[y].text == b[y].text
      && r[y].up == b[y].up && b[y].kids <= r[y].kids
  }

  lemma ExtendsTrans(a: Doc, b: Doc, c: Doc)
    requires Extends(a, b) && Extends(b, c)
    ensures Extends(a, c)
  {
    forall y | 0 <= y < |a| ensures a[y].kids <= c[y].kids {
      assert a[y].kids <= b[y].kids <= c[y].kids;
    }
  }

  /** `t.append(sc)` for the child `sc` of the derived node `x`: a copy of
      the subtree of `sc` becomes the last child of `t`, and `sc` leaves `x`. */
  ghost function MoveKid(st: Docs, t: Node, x: Node, sc: Node): (r: Docs)
    requires Good(st) && t < |st.base| && st.base[t].tag.Elem? && x < |st.derived| && sc in st.derived[x].kids
    ensures Good(r) && Extends(st.base, r.base) && Kept(st.derived, r.derived)
    ensures forall y :: 0 <= y < |st.base| && y != t ==> r.base[y] == st.base[y]
    ensures |st.base| < |r.base| && r.base[t].kids == st.base[t].kids + [|st.base|]
    ensures r.base[|st.base|].tag == st.derived[sc].tag && ToTree(r.base, |st.base|) == ToTree(st.derived, sc)
    ensures x < |r.derived| && r.derived[x].kids == Without(st.derived[x].kids, {sc})
  {
    KidUp(st.derived, x, sc);
    var b1 := Graft(st.base, t, st.derived, sc);
    var s1 := Detach(st.derived, sc);
    GraftExtends(st.base, t, st.derived, sc);
    GraftTree(st.base, t, st.derived, sc);
    KeptAfterDetach(st.derived, sc);
    Docs(b1, s1)
  }

  /** `r` is `b` with the trees of `a`, nodes of `s`, appended to the
      children of `t`. */
  ghost predicate Gains(b: Doc, r: Doc, t: Node, s: Doc, a: seq<Node>)
  {
    Valid(r) && Valid(s) && t < |b| && t < |r| && |b[t].kids| <= |r[t].kids|
    && (forall j :: 0 <= j < |r[t].kids| ==> r[t].kids[j] < |r|)
    && (forall j :: 0 <= j < |a| ==> a[j] < |s|)
    && Trees(r, r[t].kids[|b[t].kids|..]) == Trees(s, a)
  }

  /** What a move does to the derived document besides emptying a slot of
      `x`: only `sc` loses its parent, and nothing else changes but `x`. */
  lemma MoveKidLinks(st: Docs, t: Node, x: Node, sc: Node)
    requires Good(st) && t < |st.base| && st.base[t].tag.Elem? && x < |st.derived| && sc in st.derived[x].kids
    ensures var r := MoveKid(st, t, x, sc);
      && r.derived[sc].up == None
      && (forall y :: 0 <= y < |st.derived| && y != sc ==> r.derived[y].up == st.derived[y].up)
      && (forall y :: 0 <= y < |st.derived| && y != x ==> Same(r.derived[y], st.derived[y]))
  {
    KidUp(st.derived, x, sc);
  }

  lemma GraftExtends(b: Doc, t: Node, s: Doc, c: Node)
    requires Valid(b) && Valid(s) && t < |b| && c < |s| && b[t].tag.Elem?
    ensures Extends(b, Graft(b, t, s, c))
  {
  }

  lemma KeptAfterDetach(s: Doc, c: Node)
    requires Valid(s) && c < |s| && s[c].up.Some?
    ensures Kept(s, Detach(s, c))
  {
  }

  lemma KeptTrans(a: Doc, b: Doc, c: Doc)
    requires Kept(a, b) && Kept(b, c)
    ensures Kept(a, c)
  {
  }

  /** After the first of the children `ks` of `x` was handled (moved or
      not), the others are still children of `x`. */
  lemma NextKids(s: Doc, x: Node, ks: seq<Node>, s1: Doc)
    requires Valid(s) && x < |s| && ks != [] && Distinct(ks)
    requires forall j :: 0 <= j < |ks| ==> ks[j] in s[x].kids
    requires x < |s1| && (s1[x].kids == s[x].kids || s1[x].kids == Without(s[x].kids, {ks[0]}))
    ensures Distinct(ks[1..]) && forall j :: 0 <= j < |ks[1..]| ==> ks[1..][j] in s1[x].kids
  {
    forall j | 0 <= j < |ks[1..]| ensures ks[1..][j] in s1[x].kids {
      assert ks[1..][j] == ks[j + 1] != ks[0];
    }
  }
}
