/** `_remove_any` (descr.py:215-227): the first element `S` of the policy
    entry selects, by `find_any`, every element under the root with the tag
    of `S` whose attributes contain those of `S`; each is detached from its
    parent. The Python loop walks a set, so no order is fixed: the closed
    form `RemoveAll` shows that the order does not matter. */
module RemoveAnyPolicy {
  import opened Wrappers
  import opened Xml
  import opened Queries
  import opened Policy

  /** The specification of `_remove_any` for the entry `e`. */
  ghost function RemoveAny(st: Docs, e: Node): (r: Docs)
    requires Good(st) && e < |st.derived|
    ensures Good(r) && r.derived == st.derived && Cut(st.base, r.base)
  {
    KidsIn(st.derived, e);
    match FirstElement(st.derived, st.derived[e].kids)
    case None => st
    case Some(x) =>
      Docs(RemoveAll(st.base, AnyMatches(st.base, st.derived[x].tag, 0, st.derived[x].attrs)), st.derived)
  }

  /** Afterwards no element under the root has the tag of `S` and attributes
      containing those of `S`; the nodes that left the tree are exactly the
      matches and their subtrees. */
  lemma RemoveAnyLeavesNone(st: Docs, e: Node, x: Node, y: Node)
    requires Good(st) && e < |st.derived| && AllIn(st.derived, st.derived[e].kids)
    requires FirstElement(st.derived, st.derived[e].kids) == Some(x)
    requires 0 < y < |st.base|
    ensures Live(RemoveAny(st, e).base, y) ==>
      !(st.base[y].tag == st.derived[x].tag && Glob(st.derived[x].attrs, st.base[y].attrs))
    ensures Live(RemoveAny(st, e).base, y) <==> (Live(st.base, y) &&
      forall a :: a in AnyMatches(st.base, st.derived[x].tag, 0, st.derived[x].attrs) ==> a != y && !Below(st.base, a, y))
  {
    var d := st.base;
    var m := AnyMatches(d, st.derived[x].tag, 0, st.derived[x].attrs);
    AnyMatchesIn(d, st.derived[x].tag, 0, st.derived[x].attrs);
    assert 0 !in m by {
      if 0 in m {
        BelowLess(d, 0, 0);
      }
    }
    LiveAfterRemoveAll(d, m, y);
    AnyMatchesMem(d, st.derived[x].tag, 0, st.derived[x].attrs, y);
  }
}
