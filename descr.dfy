/** `ApplianceDescription` (descr.py): the derived description `s_dom`, the
    inherited description `p_dom` it is applied to, and the six policy
    methods that edit `p_dom` in place. Each method runs the loops of its
    Python counterpart on the two documents and is proved to end in the
    state the specification function of its policy module computes. */
module Description {
  import opened Wrappers
  import opened Xml
  import opened Queries
  import opened Policy
  import AddPolicy
  import RemovePolicy
  import MergePolicy
  import ReplacePolicy
  import RemoveAnyPolicy
  import SetPolicy
  import Text

  /** `for t in nodes: t.getparent().remove(t)`, in whatever order the set
      yields its members. */
  method DetachAll(d0: Doc, nodes: set<Node>) returns (d: Doc)
    requires Valid(d0) && forall t :: t in nodes ==> t < |d0| && d0[t].up.Some?
    ensures d == RemoveAll(d0, nodes)
  {
    RemoveAllNone(d0);
    assert nodes - nodes == {};
    d := d0;
    var rest := nodes;
    while rest != {}
      invariant rest <= nodes && d == RemoveAll(d0, nodes - rest)
      decreases |rest|
    {
      var t :| t in rest;
      RemoveAllStep(d0, nodes - rest, t);
      d := Detach(d, t);
      TakeOne(nodes, rest, t);
      rest := rest - {t};
    }
    assert nodes - rest == nodes;
  }

  lemma TakeOne(nodes: set<Node>, rest: set<Node>, t: Node)
    requires t in rest && rest <= nodes
    ensures (nodes - rest) + {t} == nodes - (rest - {t})
  {
  }

  /** The loop of `_replace` over the same-tag elements `l` found before it;
      `S` (node `x`) moves at the first match and is moved again at each
      later one. */
  method ReplaceIn(st0: Docs, x: Node, l: seq<Node>) returns (r: Result<Docs, Failure>)
    requires Good(st0) && x < |st0.derived| && st0.derived[x].tag.Elem? && st0.derived[x].up.Some?
    requires AllIn(st0.base, l)
    ensures r == ReplacePolicy.ReplaceFold(st0, x, l, |st0.base|, false)
  {
    var st := st0;
    var n0: nat := |st.base|;
    var moved := false;
    var rest: seq<Node> := l;
    while rest != []
      invariant Good(st) && x < |st.derived| && st.derived[x].tag.Elem?
      invariant forall j :: 0 <= j < |rest| ==> rest[j] < n0
      invariant if moved then n0 < |st.base| else n0 == |st.base| && st.derived[x].up.Some?
      invariant ReplacePolicy.ReplaceFold(st0, x, l, n0, false) == ReplacePolicy.ReplaceFold(st, x, rest, n0, moved)
      decreases |rest|
    {
      var t := rest[0];
      if st.base[t].attrs == st.derived[x].attrs {
        if st.base[t].up.None? {
          return Err(NoParent);
        }
        var p := st.base[t].up.value;
        var b1 := Detach(st.base, t);
        if !moved {
          st := Docs(Graft(b1, p, st.derived, x), Detach(st.derived, x));
        } else {
          st := Docs(MoveWithin(b1, p, n0), st.derived);
        }
        moved := true;
      }
      rest := rest[1..];
    }
    return Ok(st);
  }

  /** The inner loops of `_merge` for one target `t`: `for sc in S`, with
      the children of `S` (node `x`) taken before the loop, appends `sc` to
      `t` unless a child of `t` already has its tag. */
  method MergeInto(st0: Docs, t: Node, x: Node) returns (st: Docs)
    requires Good(st0) && t < |st0.base| && st0.base[t].tag.Elem? && x < |st0.derived|
    ensures st == MergePolicy.MergeKids(st0, t, x, st0.derived[x].kids)
  {
    st := st0;
    var rest := st0.derived[x].kids;
    while rest != []
      invariant Good(st) && t < |st.base| && st.base[t].tag.Elem? && x < |st.derived|
      invariant Distinct(rest) && forall j :: 0 <= j < |rest| ==> rest[j] in st.derived[x].kids
      invariant MergePolicy.MergeKids(st0, t, x, st0.derived[x].kids) == MergePolicy.MergeKids(st, t, x, rest)
      decreases |rest|
    {
      var sc := rest[0];
      var isNew := NoKidTagged(st.base, t, st.derived[sc].tag);
      ghost var prev := st;
      if isNew {
        KidUp(st.derived, x, sc);
        st := Docs(Graft(st.base, t, st.derived, sc), Detach(st.derived, sc));
        assert st == MoveKid(prev, t, x, sc);
      }
      NextKids(prev.derived, x, rest, st.derived);
      rest := rest[1..];
    }
  }

  /** The `is_new` search of `_merge`: no child of `t` has the tag `tag`. */
  method NoKidTagged(b: Doc, t: Node, tag: Tag) returns (isNew: bool)
    requires Valid(b) && t < |b|
    ensures isNew <==> !MergePolicy.HasKidTag(b, t, tag)
  {
    isNew := true;
    var j := 0;
    while j < |b[t].kids| && isNew
      invariant 0 <= j <= |b[t].kids|
      invariant isNew <==> forall i :: 0 <= i < j ==> b[b[t].kids[i]].tag != tag
    {
      if b[b[t].kids[j]].tag == tag {
        isNew := false;
      }
      j := j + 1;
    }
  }

  /** The loop of `_merge` over the targets `l` found for `S` (node `x`). */
  method MergeAll(st0: Docs, x: Node, l: seq<Node>, exp: string) returns (st: Docs)
    requires Good(st0) && x < |st0.derived| && AllIn(st0.base, l)
    requires forall j :: 0 <= j < |l| ==> st0.base[l[j]].tag.Elem?
    ensures st == MergePolicy.MergeTargets(st0, x, l, exp)
  {
    st := st0;
    var rest := l;
    while rest != []
      invariant Good(st) && x < |st.derived| && AllIn(st.base, rest)
      invariant forall j :: 0 <= j < |rest| ==> st.base[rest[j]].tag.Elem?
      invariant MergePolicy.MergeTargets(st0, x, l, exp) == MergePolicy.MergeTargets(st, x, rest, exp)
      decreases |rest|
    {
      var t := rest[0];
      ghost var prev := st;
      var tp := GetXPath(st.base, t);
      if tp == exp {
        st := MergeInto(st, t, x);
      }
      MergePolicy.MergeTargetsNext(prev, x, rest, exp, st);
      rest := rest[1..];
    }
  }

  /** `for t_tag in get_last(tgt_aggr): if t_tag.attrib == r_tag.attrib:
      t_tag.getparent().remove(t_tag)`; a detached `t_tag` has no parent and
      the call fails. */
  method RemoveMatchingIn(d0: Doc, ts: seq<Node>, a: Attrs) returns (r: Result<Doc, Failure>)
    requires Valid(d0) && AllIn(d0, ts)
    ensures r == RemovePolicy.RemoveMatching(d0, ts, a)
  {
    var d := d0;
    assert ts[0..] == ts;
    var i := 0;
    while i < |ts|
      invariant 0 <= i <= |ts| && Valid(d) && |d| == |d0|
      invariant RemovePolicy.RemoveMatching(d0, ts, a) == RemovePolicy.RemoveMatching(d, ts[i..], a)
    {
      var t := ts[i];
      assert ts[i..][0] == t && ts[i..][1..] == ts[i + 1..];
      if d[t].attrs == a {
        if d[t].up.None? {
          return Err(NoParent);
        }
        d := Detach(d, t);
      }
      i := i + 1;
    }
    return Ok(d);
  }

  /** `for r_tag in get_last(s_tag)`, over the leaves `rs` of `S`; the leaves
      of the target are taken anew for each of them. */
  method RemoveLeavesIn(d0: Doc, tgt: Node, s: Doc, rs: seq<Node>) returns (r: Result<Doc, Failure>)
    requires Valid(d0) && tgt < |d0| && Valid(s) && AllIn(s, rs)
    ensures r == RemovePolicy.RemoveLeaves(d0, tgt, s, rs)
  {
    var d := d0;
    assert rs[0..] == rs;
    var i := 0;
    while i < |rs|
      invariant 0 <= i <= |rs| && Valid(d) && tgt < |d|
      invariant RemovePolicy.RemoveLeaves(d0, tgt, s, rs) == RemovePolicy.RemoveLeaves(d, tgt, s, rs[i..])
    {
      assert rs[i..][0] == rs[i] && rs[i..][1..] == rs[i + 1..];
      GetLastIn(d, tgt);
      var r1 := RemoveMatchingIn(d, GetLast(d, tgt), s[rs[i]].attrs);
      if r1.Err? {
        return Err(r1.error);
      }
      d := r1.value;
      i := i + 1;
    }
    return Ok(d);
  }

  /** The aggregate branch of `_remove` over the targets `l` that carry the
      tag of `S` (node `x` of `s`). */
  method RemoveAggregatesIn(d0: Doc, s: Doc, x: Node, l: seq<Node>, frame: string) returns (r: Result<Doc, Failure>)
    requires Valid(d0) && Valid(s) && x < |s| && s[x].tag.Elem? && AllIn(d0, l)
    requires forall j :: 0 <= j < |l| ==> d0[l[j]].tag == s[x].tag
    ensures r == RemovePolicy.RemoveAggregates(d0, s, x, l, frame)
  {
    var d := d0;
    assert l[0..] == l;
    var i := 0;
    while i < |l|
      invariant 0 <= i <= |l| && Valid(d) && Kept(d0, d)
      invariant AllIn(d, l[i..]) && forall j :: 0 <= j < |l[i..]| ==> d[l[i..][j]].tag == s[x].tag
      invariant RemovePolicy.RemoveAggregates(d0, s, x, l, frame) == RemovePolicy.RemoveAggregates(d, s, x, l[i..], frame)
    {
      var tgt := l[i];
      assert l[i..][0] == tgt && l[i..][1..] == l[i + 1..];
      var here := false;
      if d[tgt].attrs == s[x].attrs {
        var sp := GetXPath(s, x);
        var tp := GetXPath(d, tgt);
        here := StripFrame(sp, frame) == tp;
      }
      assert here == RemovePolicy.AggregateAt(d, tgt, s, x, frame);
      GetLastIn(s, x);
      if here {
        var r1 := RemoveLeavesIn(d, tgt, s, GetLast(s, x));
        RemovePolicy.AggregatesNext(d, s, x, l[i..], frame, r1);
        if r1.Err? {
          return Err(r1.error);
        }
        KeptTrans(d0, d, r1.value);
        d := r1.value;
      } else {
        RemovePolicy.AggregatesNext(d, s, x, l[i..], frame, Ok(d));
      }
      i := i + 1;
    }
    return Ok(d);
  }

  /** The elements branch of `_remove`: every `tc` with the attributes `a`
      that `get_parent` finds is removed from that parent. */
  method RemoveElementsIn(d0: Doc, l: seq<Node>, a: Attrs) returns (d: Doc)
    requires Valid(d0) && AllIn(d0, l)
    ensures d == RemovePolicy.RemoveElements(d0, l, a)
  {
    d := d0;
    assert l[0..] == l;
    var i := 0;
    while i < |l|
      invariant 0 <= i <= |l| && Valid(d) && |d| == |d0|
      invariant RemovePolicy.RemoveElements(d0, l, a) == RemovePolicy.RemoveElements(d, l[i..], a)
    {
      var t := l[i];
      assert l[i..][0] == t && l[i..][1..] == l[i + 1..];
      if d[t].attrs == a {
        var p := GetParent(d, 0, t);
        if p.Some? {
          d := Detach(d, t);
        }
      }
      i := i + 1;
    }
  }

  /** One child `S` (node `k` of `s`) of a `remove` entry. */
  method RemoveEntryIn(d: Doc, s: Doc, k: Node, frame: string) returns (r: Result<Doc, Failure>)
    requires Valid(d) && Valid(s) && k < |s|
    ensures r == RemovePolicy.RemoveEntry(d, s, k, frame)
  {
    var l := FindAll(d, s[k].tag, 0, map[]);
    RemovePolicy.FindAllTags(d, s[k].tag, l);
    if |s[k].kids| > 0 {
      r := RemoveAggregatesIn(d, s, k, l, frame);
    } else {
      var d1 := RemoveElementsIn(d, l, s[k].attrs);
      r := Ok(d1);
    }
  }

  /** `for mv_c in c: tc.append(mv_c)`, over the children of `c` taken
      before the loop. */
  method MoveKidsIn(st0: Docs, t: Node, c: Node) returns (st: Docs)
    requires Good(st0) && t < |st0.base| && c < |st0.derived| && st0.base[t].tag == st0.derived[c].tag
    ensures st == AddPolicy.MoveKids(st0, t, c, st0.derived[c].kids)
  {
    st := st0;
    var ks := st0.derived[c].kids;
    assert ks[0..] == ks;
    var k := 0;
    while k < |ks|
      invariant 0 <= k <= |ks|
      invariant Good(st) && t < |st.base| && c < |st.derived| && st.base[t].tag == st.derived[c].tag
      invariant Distinct(ks[k..]) && forall j :: 0 <= j < |ks[k..]| ==> ks[k..][j] in st.derived[c].kids
      invariant AddPolicy.MoveKids(st0, t, c, ks) == AddPolicy.MoveKids(st, t, c, ks[k..])
    {
      var sc := ks[k];
      assert ks[k..][0] == sc && ks[k..][1..] == ks[k + 1..];
      ghost var prev := st;
      KidUp(st.derived, c, sc);
      st := Docs(Graft(st.base, t, st.derived, sc), Detach(st.derived, sc));
      assert st == MoveKid(prev, t, c, sc);
      NextKids(prev.derived, c, ks[k..], st.derived);
      k := k + 1;
    }
  }

  /** The first loop of `_add` for the child `c`, over the same-tag elements
      `l` found before it. */
  method MoveToExactIn(st0: Docs, c: Node, l: seq<Node>) returns (st: Docs)
    requires Good(st0) && c < |st0.derived| && AllIn(st0.base, l)
    requires forall j :: 0 <= j < |l| ==> st0.base[l[j]].tag == st0.derived[c].tag
    ensures st == AddPolicy.MoveToExact(st0, c, l)
  {
    st := st0;
    assert l[0..] == l;
    var i := 0;
    while i < |l|
      invariant 0 <= i <= |l|
      invariant Good(st) && c < |st.derived| && AllIn(st.base, l[i..])
      invariant forall j :: 0 <= j < |l[i..]| ==> st.base[l[i..][j]].tag == st.derived[c].tag
      invariant AddPolicy.MoveToExact(st0, c, l) == AddPolicy.MoveToExact(st, c, l[i..])
    {
      var t := l[i];
      ghost var prev := st;
      assert l[i..][0] == t && l[i..][1..] == l[i + 1..];
      if st.base[t].attrs == st.derived[c].attrs {
        st := MoveKidsIn(st, t, c);
      }
      AddPolicy.MoveToExactNext(prev, c, l[i..], st);
      i := i + 1;
    }
  }

  /** The second loop of `_add`: `for tc in find_all(...)` breaking at the
      first element with exactly the attributes `a`. `isNew` says none was
      found; `tcOut` is where the loop variable is left, `tc` when the loop
      did not run. */
  method SearchExact(b: Doc, l: seq<Node>, a: Attrs, tc: Option<Node>) returns (isNew: bool, tcOut: Option<Node>)
    requires AllIn(b, l)
    ensures isNew == AddPolicy.FirstExact(b, l, a).None?
    ensures tcOut == if !isNew then AddPolicy.FirstExact(b, l, a) else if l != [] then Some(l[|l| - 1]) else tc
  {
    isNew := true;
    tcOut := tc;
    var i := 0;
    assert l[0..] == l;
    while i < |l| && isNew
      invariant 0 <= i <= |l|
      invariant isNew ==> AddPolicy.FirstExact(b, l, a) == AddPolicy.FirstExact(b, l[i..], a)
      invariant isNew ==> tcOut == if i > 0 then Some(l[i - 1]) else tc
      invariant !isNew ==> i > 0 && tcOut == Some(l[i - 1]) && AddPolicy.FirstExact(b, l, a) == tcOut
    {
      assert l[i..][0] == l[i] && l[i..][1..] == l[i + 1..];
      tcOut := Some(l[i]);
      if b[l[i]].attrs == a {
        isNew := false;
      }
      i := i + 1;
    }
  }

  /** One turn of `for c in e` in `_add`, with `tc` as the previous turns
      left it. */
  method AddOneIn(st: Docs, c: Node, tc: Option<Node>) returns (r: Result<AddPolicy.Pass, Failure>)
    requires Good(st) && c < |st.derived| && st.derived[c].up.Some?
    requires tc.Some? ==> tc.value < |st.base|
    ensures r == AddPolicy.AddOne(st, c, tc)
  {
    var tag := st.derived[c].tag;
    var l1 := FindAll(st.base, tag, 0, map[]);
    FindAllTagged(st.base, tag, map[]);
    var st1 := MoveToExactIn(st, c, l1);
    AddPolicy.MoveToExactLinks(st, c, l1);
    var l2 := FindAll(st1.base, tag, 0, map[]);
    var isNew, tc2 := SearchExact(st1.base, l2, st.derived[c].attrs, tc);
    if !isNew {
      return Ok(AddPolicy.Pass(st1, tc2));
    }
    if tc2.None? {
      return Err(UnboundTc);
    }
    var p := GetParent(st1.base, 0, tc2.value);
    if p.None? {
      return Ok(AddPolicy.Pass(st1, tc2));
    }
    KidUp(st1.base, p.value, tc2.value);
    var x := st1.derived[c].up.value;
    KidUp(st1.derived, x, c);
    var st2 := Docs(Graft(st1.base, p.value, st1.derived, c), Detach(st1.derived, c));
    assert st2 == MoveKid(st1, p.value, x, c);
    return Ok(AddPolicy.Pass(st2, tc2));
  }

  /** `for c in e` in `_add`, over the children `ks` of `e` taken before the
      loop, with the loop variable `tc` carried from one turn to the next. */
  method AddAllIn(st0: Docs, e: Node, ks: seq<Node>) returns (r: Result<Docs, Failure>)
    requires Good(st0) && e < |st0.derived| && Distinct(ks)
    requires forall j :: 0 <= j < |ks| ==> ks[j] < |st0.derived| && st0.derived[ks[j]].up == Some(e)
    ensures r == AddPolicy.AddAll(st0, e, ks, None)
  {
    var st := st0;
    var tc: Option<Node> := None;
    var rest := ks;
    while rest != []
      invariant AddPolicy.AddAllReady(st, e, rest, tc)
      invariant AddPolicy.AddAll(st0, e, ks, None) == AddPolicy.AddAll(st, e, rest, tc)
      decreases |rest|
    {
      var c := rest[0];
      AddPolicy.AddAllNext(st, e, rest, tc);
      var r1 := AddOneIn(st, c, tc);
      if r1.Err? {
        return Err(r1.error);
      }
      st, tc := r1.value.docs, r1.value.tc;
      rest := rest[1..];
    }
    return Ok(st);
  }

  /** The pairs of `m` whose keys are in `ks`. */
  ghost function Within(m: Attrs, ks: set<string>): Attrs
  {
    map k | k in m.Keys && k in ks :: m[k]
  }

  lemma WithinStep(a0: Attrs, m: Attrs, done: set<string>, k: string)
    requires k in m
    ensures (a0 + Within(m, done))[k := m[k]] == a0 + Within(m, done + {k})
  {
  }

  /** `for k, v in p_attrs.items(): t_tag.set(k, v)` on the attributes `a0`
      of one element. */
  method SetPairs(a0: Attrs, pairs: Attrs) returns (a: Attrs)
    ensures a == a0 + pairs
  {
    a := a0;
    var rest := pairs.Keys;
    ghost var done: set<string> := {};
    assert Within(pairs, done) == map[];
    while rest != {}
      invariant done + rest == pairs.Keys
      invariant a == a0 + Within(pairs, done)
      decreases |rest|
    {
      var k :| k in rest;
      WithinStep(a0, pairs, done, k);
      a := a[k := pairs[k]];
      rest := rest - {k};
      done := done + {k};
    }
    assert Within(pairs, done) == pairs;
  }

  /** `for t_tag in p_dom.xpath(...)`: each hit gets every pair; a hit that
      is not an element fails at its first `set`. */
  method SetEachIn(d0: Doc, hits: seq<SetPolicy.Hit>, pairs: Attrs) returns (r: Result<Doc, Failure>)
    requires Valid(d0)
    ensures r == SetPolicy.SetEach(d0, hits, pairs)
  {
    var d := d0;
    var rest := hits;
    while rest != []
      invariant Valid(d) && SetPolicy.SetEach(d0, hits, pairs) == SetPolicy.SetEach(d, rest, pairs)
      decreases |rest|
    {
      var h := rest[0];
      if pairs != map[] {
        if !(h.At? && h.node < |d| && d[h.node].tag.Elem?) {
          return Err(NotElement);
        }
        var a := SetPairs(d[h.node].attrs, pairs);
        d := d[h.node := d[h.node].(attrs := a)];
      }
      rest := rest[1..];
    }
    return Ok(d);
  }

  // ---------------------------------------------------------------------
  // `_resolve` and `_apply`

  /** `findall("*")` over the children `ks`: the elements among them, in
      document order. */
  function ElementKids(d: Doc, ks: seq<Node>): (r: seq<Node>)
    requires AllIn(d, ks)
    ensures forall n :: n in r <==> n in ks && d[n].tag.Elem?
    ensures AllIn(d, r) && |r| <= |ks|
  {
    if ks == [] then []
    else
      var rest := ElementKids(d, ks[1..]);
      assert forall n :: n in ks <==> n == ks[0] || n in ks[1..] by {
        assert ks == [ks[0]] + ks[1..];
      }
      if d[ks[0]].tag.Elem? then [ks[0]] + rest else rest
  }

  /** `find(name)` over the children `ks`: the first element named `name`. */
  function FindChild(d: Doc, ks: seq<Node>, name: string): (r: Option<Node>)
    requires AllIn(d, ks)
    ensures r.Some? ==> r.value < |d| && d[r.value].tag == Elem(name)
    ensures r.Some? ==> exists i :: 0 <= i < |ks| && ks[i] == r.value && (forall j :: 0 <= j < i ==> d[ks[j]].tag != Elem(name))
    ensures r.None? <==> forall j :: 0 <= j < |ks| ==> d[ks[j]].tag != Elem(name)
  {
    if ks == [] then None
    else if d[ks[0]].tag == Elem(name) then
      assert ks[0] == ks[0];
      Some(ks[0])
    else
      var r := FindChild(d, ks[1..], name);
      assert forall j :: 1 <= j < |ks| ==> ks[j] == ks[1..][j - 1];
      r
  }

  /** `s_dom.findall("*")`: the elements directly under the root. */
  function Entries(s: Doc): (r: seq<Node>)
    requires Valid(s)
    ensures AllIn(s, r) && forall n :: n in r <==> n in s[0].kids && s[n].tag.Elem?
  {
    KidsIn(s, 0);
    ElementKids(s, s[0].kids)
  }

  /** What the file system holds: a path maps to the document read from it,
      or to `None` when the file cannot be read or parsed. */
  ghost predicate Readable(fs: map<string, Option<Doc>>)
  {
    forall p :: p in fs && fs[p].Some? ==> Valid(fs[p].value)
  }

  /** `_resolve`: the first `inherit` child of the root of the derived
      description names, in its `path` attribute, the inherited description.
      `Ok(None)`: there is none; an `inherit` without `path`, a missing or an
      unreadable file are failures. */
  function ResolveParent(s: Doc, fs: map<string, Option<Doc>>): (r: Result<Option<Doc>, Failure>)
    requires Valid(s)
    ensures r == Ok(None) <==> FindChild(s, s[0].kids, "inherit").None?
    ensures r == Err(NoPathAttr) <==>
      FindChild(s, s[0].kids, "inherit").Some? && "path" !in s[FindChild(s, s[0].kids, "inherit").value].attrs
    ensures r.Ok? && r.value.Some? ==> (FindChild(s, s[0].kids, "inherit").Some? &&
      var i := FindChild(s, s[0].kids, "inherit").value;
      "path" in s[i].attrs && s[i].attrs["path"] in fs && fs[s[i].attrs["path"]] == r.value)
  {
    KidsIn(s, 0);
    match FindChild(s, s[0].kids, "inherit")
    case None => Ok(None)
    case Some(i) =>
      if "path" !in s[i].attrs then Err(NoPathAttr)
      else
        var path := s[i].attrs["path"];
        if path !in fs then Err(Missing(path))
        else if fs[path].None? then Err(Unreadable(path))
        else Ok(fs[path])
  }

  /** The entry names `_apply` dispatches on. */
  const PolicyNames: set<string> := {"add", "remove", "merge", "replace", "remove_any", "set"}

  /** One entry `op` of the derived description: the policy its tag names,
      with the marker segment of `remove` and `merge` set; any other
      element is left alone. */
  ghost function ApplyOne(st: Docs, op: Node, yaml: string -> SetPolicy.YamlLoad, xpath: (Doc, string) -> SetPolicy.Selection):
    (r: Result<Docs, Failure>)
    requires Good(st) && op < |st.derived|
    ensures r.Ok? ==> Good(r.value) && |r.value.derived| == |st.derived| && Kept(st.derived, r.value.derived)
  {
    match st.derived[op].tag
    case Comment => Ok(st)
    case Elem(n) =>
      if n == "add" then AddPolicy.Add(st, op)
      else if n == "remove" then RemovePolicy.Remove(st, op, "remove")
      else if n == "merge" then Ok(MergePolicy.Merge(st, op, "merge"))
      else if n == "replace" then ReplacePolicy.Replace(st, op)
      else if n == "remove_any" then Ok(RemoveAnyPolicy.RemoveAny(st, op))
      else if n == "set" then SetPolicy.Set(st, op, yaml, xpath)
      else Ok(st)
  }

  /** `for op in s_dom.findall("*")`, over the entries `ops` taken before the
      loop; the first failure ends it. */
  ghost function ApplyAll(st: Docs, ops: seq<Node>, yaml: string -> SetPolicy.YamlLoad, xpath: (Doc, string) -> SetPolicy.Selection):
    (r: Result<Docs, Failure>)
    requires Good(st) && AllIn(st.derived, ops)
    ensures r.Ok? ==> Good(r.value) && Kept(st.derived, r.value.derived)
    decreases |ops|
  {
    if ops == [] then Ok(st)
    else
      match ApplyOne(st, ops[0], yaml, xpath)
      case Err(f) => Err(f)
      case Ok(st1) =>
        var r := ApplyAll(st1, ops[1..], yaml, xpath);
        if r.Ok? then
          KeptTrans(st.derived, st1.derived, r.value.derived);
          r
        else r
  }

  /** The whole of `ApplianceDescription(descr)` for the parsed description
      `s`: no `inherit` makes `p_dom` the description itself; otherwise the
      policies of `s` are applied to the inherited document. */
  ghost function Describe(s: Doc, fs: map<string, Option<Doc>>, yaml: string -> SetPolicy.YamlLoad,
    xpath: (Doc, string) -> SetPolicy.Selection): (r: Result<Docs, Failure>)
    requires Valid(s) && Readable(fs)
    ensures r.Ok? ==> Good(r.value)
  {
    match ResolveParent(s, fs)
    case Err(f) => Err(f)
    case Ok(None) => Ok(Docs(s, s))
    case Ok(Some(p)) => ApplyAll(Docs(p, s), Entries(s), yaml, xpath)
  }

  /** The entries of `ops` whose tag names a policy. */
  function Policies(d: Doc, ops: seq<Node>): (r: seq<Node>)
    requires AllIn(d, ops)
    ensures forall n :: n in r <==> n in ops && d[n].tag.Elem? && d[n].tag.name in PolicyNames
  {
    if ops == [] then []
    else
      var rest := Policies(d, ops[1..]);
      assert forall n :: n in ops <==> n == ops[0] || n in ops[1..] by {
        assert ops == [ops[0]] + ops[1..];
      }
      if d[ops[0]].tag.Elem? && d[ops[0]].tag.name in PolicyNames then [ops[0]] + rest else rest
  }

  /** Entries that name no policy are skipped: applying all of them is
      applying only those that do. */
  lemma {:induction false} OthersIgnored(st: Docs, ops: seq<Node>, yaml: string -> SetPolicy.YamlLoad,
    xpath: (Doc, string) -> SetPolicy.Selection)
    requires Good(st) && AllIn(st.derived, ops)
    ensures AllIn(st.derived, Policies(st.derived, ops))
    ensures ApplyAll(st, ops, yaml, xpath) == ApplyAll(st, Policies(st.derived, ops), yaml, xpath)
    decreases |ops|
  {
    PoliciesIn(st.derived, ops);
    if ops != [] {
      var op := ops[0];
      var ps := Policies(st.derived, ops);
      var rest := Policies(st.derived, ops[1..]);
      if st.derived[op].tag.Elem? && st.derived[op].tag.name in PolicyNames {
        assert ps == [op] + rest && ps[0] == op && ps[1..] == rest;
        var r1 := ApplyOne(st, op, yaml, xpath);
        if r1.Ok? {
          OthersIgnored(r1.value, ops[1..], yaml, xpath);
          PoliciesKept(st.derived, r1.value.derived, ops[1..]);
        }
      } else {
        assert ps == rest;
        SkipOne(st, op, yaml, xpath);
        OthersIgnored(st, ops[1..], yaml, xpath);
      }
    }
  }

  lemma PoliciesIn(d: Doc, ops: seq<Node>)
    requires AllIn(d, ops)
    ensures AllIn(d, Policies(d, ops))
  {
    var ps := Policies(d, ops);
    forall j | 0 <= j < |ps| ensures ps[j] < |d| {
      assert ps[j] in ops;
    }
  }

  /** An entry whose tag names no policy changes nothing. */
  lemma SkipOne(st: Docs, op: Node, yaml: string -> SetPolicy.YamlLoad, xpath: (Doc, string) -> SetPolicy.Selection)
    requires Good(st) && op < |st.derived|
    requires !(st.derived[op].tag.Elem? && st.derived[op].tag.name in PolicyNames)
    ensures ApplyOne(st, op, yaml, xpath) == Ok(st)
  {
  }

  /** Which entries name a policy depends on their tags only. */
  lemma {:induction false} PoliciesKept(d: Doc, d1: Doc, ops: seq<Node>)
    requires AllIn(d, ops) && Kept(d, d1)
    ensures AllIn(d1, ops) && Policies(d1, ops) == Policies(d, ops)
    decreases |ops|
  {
    if ops != [] {
      PoliciesKept(d, d1, ops[1..]);
    }
  }

  class ApplianceDescription {
    var sDom: Doc
    var pDom: Doc

    ghost function State(): Docs
      reads this
    {
      Docs(pDom, sDom)
    }

    /** Both documents are well-formed trees. */
    ghost predicate Ready()
      reads this
    {
      Good(State())
    }

    constructor (s: Doc, p: Doc)
      requires Valid(s) && Valid(p)
      ensures sDom == s && pDom == p && Ready()
    {
      sDom := s;
      pDom := p;
    }

    /** `_remove_any(e)`: every element `find_any` yields for the first
        element of `e` is removed from its parent, in no particular order. */
    method RemoveAny(e: Node)
      modifies this
      requires Ready() && e < |sDom|
      ensures State() == RemoveAnyPolicy.RemoveAny(old(State()), e)
    {
      var next := GetNext(sDom, e);
      if next.None? {
        return;
      }
      ghost var st0 := State();
      var s := sDom[next.value];
      var found := FindAny(pDom, s.tag, 0, s.attrs);
      assert RemoveAnyPolicy.RemoveAny(st0, e) == Docs(RemoveAll(st0.base, found), st0.derived);
      AnyMatchesIn(st0.base, s.tag, 0, s.attrs);
      pDom := DetachAll(pDom, found);
    }

    /** `_replace(e)`: every element with the tag and exactly the attributes
        of the first element `S` of `e` is removed from its parent, and `S`
        is appended to that parent. */
    method Replace(e: Node) returns (r: Result<(), Failure>)
      modifies this
      requires Ready() && e < |sDom|
      ensures ReplacePolicy.Replace(old(State()), e).Ok?
      ensures r == Ok(()) && State() == ReplacePolicy.Replace(old(State()), e).value
    {
      ReplacePolicy.ReplaceOk(State(), e);
      var next := GetNext(sDom, e);
      if next.None? {
        return Ok(());
      }
      var x := next.value;
      KidUp(sDom, e, x);
      var st := Docs(pDom, sDom);
      var l := FindAll(st.base, st.derived[x].tag, 0, map[]);
      var r1 := ReplaceIn(st, x, l);
      assert r1.Ok?;
      pDom, sDom := r1.value.base, r1.value.derived;
      return Ok(());
    }

    /** `_merge(e)`: the first element `S` of `e` selects, with its tag and
        attributes, the elements of `p_dom` whose path is the path of `S`
        without the segments "merge"; each of them receives the children of
        `S` whose tag none of its children has. */
    method Merge(e: Node)
      modifies this
      requires Ready() && e < |sDom|
      ensures State() == MergePolicy.Merge(old(State()), e, "merge")
    {
      var next := GetNext(sDom, e);
      if next.None? {
        return;
      }
      var x := next.value;
      var st := Docs(pDom, sDom);
      var path := GetXPath(sDom, x);
      var exp := StripFrame(path, "merge");
      FindAllTagged(st.base, st.derived[x].tag, st.derived[x].attrs);
      var l := FindAll(st.base, st.derived[x].tag, 0, st.derived[x].attrs);
      st := MergeAll(st, x, l, exp);
      pDom, sDom := st.base, st.derived;
    }

    /** `_remove(e)`, with the marker segment "remove": each child of `e` is
        applied in turn to `p_dom`. */
    method Remove(e: Node) returns (r: Result<(), Failure>)
      modifies this
      requires Ready() && e < |sDom|
      ensures var spec := RemovePolicy.Remove(old(State()), e, "remove");
        (spec.Err? ==> r == Err(spec.error)) && (spec.Ok? ==> r == Ok(()) && State() == spec.value)
    {
      var s := sDom;
      KidsIn(s, e);
      var ks := s[e].kids;
      var d := pDom;
      ghost var spec := RemovePolicy.RemoveEach(d, s, ks, "remove");
      assert ks[0..] == ks;
      var i := 0;
      while i < |ks|
        invariant 0 <= i <= |ks| && Valid(d) && sDom == s && old(State()) == Docs(old(pDom), s)
        invariant spec == RemovePolicy.RemoveEach(d, s, ks[i..], "remove")
      {
        assert ks[i..][0] == ks[i] && ks[i..][1..] == ks[i + 1..];
        var r1 := RemoveEntryIn(d, s, ks[i], "remove");
        if r1.Err? {
          return Err(r1.error);
        }
        d := r1.value;
        i := i + 1;
      }
      pDom := d;
      return Ok(());
    }

    /** `_add(e)`: each child of `e` in turn. */
    method Add(e: Node) returns (r: Result<(), Failure>)
      modifies this
      requires Ready() && e < |sDom|
      ensures var spec := AddPolicy.Add(old(State()), e);
        (spec.Err? ==> r == Err(spec.error)) && (spec.Ok? ==> r == Ok(()) && State() == spec.value)
    {
      var st := Docs(pDom, sDom);
      var ks := st.derived[e].kids;
      forall j | 0 <= j < |ks| ensures st.derived[ks[j]].up == Some(e) {
        KidUp(st.derived, e, ks[j]);
      }
      var r1 := AddAllIn(st, e, ks);
      if r1.Err? {
        return Err(r1.error);
      }
      pDom, sDom := r1.value.base, r1.value.derived;
      return Ok(());
    }

    /** `_set(e)`: the YAML text of `e` gives attributes to set on what its
        `xpath` attribute selects; `yaml` and `xpath` stand for the YAML
        loader and the XPath engine. */
    method Set(e: Node, yaml: string -> SetPolicy.YamlLoad, xpath: (Doc, string) -> SetPolicy.Selection)
      returns (r: Result<(), Failure>)
      modifies this
      requires Ready() && e < |sDom|
      ensures var spec := SetPolicy.Set(old(State()), e, yaml, xpath);
        (spec.Err? ==> r == Err(spec.error)) && (spec.Ok? ==> r == Ok(()) && State() == spec.value)
    {
      var op := sDom[e];
      if op.text.None? {
        return Err(NoText);
      }
      var attrs := Text.Strip(op.text.value);
      if "xpath" !in op.attrs || attrs == "" {
        return Ok(());
      }
      var load := yaml(SetPolicy.YamlSource(attrs));
      if load.ScanFailed? {
        return Ok(());
      } else if load.Failed? {
        return Err(BadYaml);
      }
      var sel := xpath(pDom, op.attrs["xpath"]);
      if sel.Invalid? {
        return Err(BadXPath);
      }
      if load.NotMapping? {
        if sel.hits == [] {
          return Ok(());
        }
        return Err(NotAttrs);
      }
      var r1 := SetEachIn(pDom, sel.hits, load.pairs);
      if r1.Err? {
        return Err(r1.error);
      }
      pDom := r1.value;
      return Ok(());
    }

    /** `self.__class__.__dict__[f"_{op.tag}"](self, op)` for an entry whose
        tag names a policy; any other entry is skipped. */
    method Dispatch(op: Node, yaml: string -> SetPolicy.YamlLoad, xpath: (Doc, string) -> SetPolicy.Selection)
      returns (r: Result<(), Failure>)
      modifies this
      requires Ready() && op < |sDom|
      ensures var spec := ApplyOne(old(State()), op, yaml, xpath);
        (spec.Err? ==> r == Err(spec.error)) && (spec.Ok? ==> r == Ok(()) && State() == spec.value)
    {
      var tag := sDom[op].tag;
      if tag.Comment? {
        return Ok(());
      }
      if tag.name == "add" {
        r := Add(op);
      } else if tag.name == "remove" {
        r := Remove(op);
      } else if tag.name == "merge" {
        Merge(op);
        r := Ok(());
      } else if tag.name == "replace" {
        r := Replace(op);
      } else if tag.name == "remove_any" {
        RemoveAny(op);
        r := Ok(());
      } else if tag.name == "set" {
        r := Set(op, yaml, xpath);
      } else {
        r := Ok(());
      }
    }

    /** `_apply` once `p_dom` holds the inherited document: `for op in
        s_dom.findall("*")`, the entries taken before the loop. */
    method Apply(yaml: string -> SetPolicy.YamlLoad, xpath: (Doc, string) -> SetPolicy.Selection)
      returns (r: Result<(), Failure>)
      modifies this
      requires Ready()
      ensures var spec := ApplyAll(old(State()), Entries(old(sDom)), yaml, xpath);
        (spec.Err? ==> r == Err(spec.error)) && (spec.Ok? ==> r == Ok(()) && State() == spec.value)
    {
      var ops := Entries(sDom);
      ghost var spec := ApplyAll(State(), ops, yaml, xpath);
      var rest := ops;
      while rest != []
        invariant Ready() && AllIn(sDom, rest)
        invariant spec == ApplyAll(State(), rest, yaml, xpath)
        decreases |rest|
      {
        var r1 := Dispatch(rest[0], yaml, xpath);
        if r1.Err? {
          return Err(r1.error);
        }
        rest := rest[1..];
      }
      return Ok(());
    }
  }

  /** `ApplianceDescription(descr)` for the parsed description `s`, with
      `fs` standing for the files `_resolve` may read: the parent is
      resolved, then the policies are applied to it. */
  method Load(s: Doc, fs: map<string, Option<Doc>>, yaml: string -> SetPolicy.YamlLoad,
    xpath: (Doc, string) -> SetPolicy.Selection) returns (r: Result<ApplianceDescription, Failure>)
    requires Valid(s) && Readable(fs)
    ensures var spec := Describe(s, fs, yaml, xpath);
      (spec.Err? ==> r.Err? && r.error == spec.error) &&
      (spec.Ok? ==> r.Ok? && fresh(r.value) && r.value.State() == spec.value)
  {
    var p := ResolveParent(s, fs);
    if p.Err? {
      return Err(p.error);
    }
    if p.value.None? {
      var a := new ApplianceDescription(s, s);
      return Ok(a);
    }
    var a := new ApplianceDescription(s, p.value.value);
    var r1 := a.Apply(yaml, xpath);
    if r1.Err? {
      return Err(r1.error);
    }
    return Ok(a);
  }
}
