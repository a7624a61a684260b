/** The inheritance chain of appliance descriptions (loader.py). `_traverse`
    follows, from a starting file, the `path` of the first `inherit` element
    of each document and records every path on an append-once list;
    `_flatten` reverses that list so that the root description comes first
    and builds each description on the one before it. Files are a map from
    path to the parsed document (`None`: the file exists but does not
    parse); serialising a result with `to_str()` and parsing it again is
    taken to give the same document back. */
module Inheritance {
  import opened Wrappers
  import opened Xml
  import opened Queries
  import opened Policy
  import Description
  import SetPolicy

  /** No path occurs twice. */
  ghost predicate Unique(xs: seq<string>)
  {
    forall i, j :: 0 <= i < j < |xs| ==> xs[i] != xs[j]
  }

  /** `UqList.append`: `x` is added at the end unless it is already there. */
  function UqAppend(xs: seq<string>, x: string): (r: seq<string>)
    ensures forall y :: y in r <==> y in xs || y == x
    ensures Unique(xs) ==> Unique(r)
    ensures xs <= r && |r| <= |xs| + 1
  {
    if x in xs then xs else xs + [x]
  }

  /** `list.reverse`. */
  function Reversed(xs: seq<string>): (r: seq<string>)
    ensures |r| == |xs| && forall i :: 0 <= i < |xs| ==> r[i] == xs[|xs| - 1 - i]
  {
    if xs == [] then [] else Reversed(xs[1..]) + [xs[0]]
  }

  lemma ReversedUnique(xs: seq<string>)
    requires Unique(xs)
    ensures Unique(Reversed(xs))
  {
    var r := Reversed(xs);
    forall i, j | 0 <= i < j < |r| ensures r[i] != r[j] {
      assert r[i] == xs[|xs| - 1 - i] && r[j] == xs[|xs| - 1 - j];
    }
  }

  /** `UqList`: a list that skips elements it already holds. */
  class UqList {
    var items: seq<string>

    ghost predicate Valid()
      reads this
    {
      Unique(items)
    }

    constructor ()
      ensures items == [] && Valid()
    {
      items := [];
    }

    method Append(x: string)
      modifies this
      requires Valid()
      ensures items == UqAppend(old(items), x) && Valid()
    {
      if x !in items {
        items := items + [x];
      }
    }

    method Reverse()
      modifies this
      requires Valid()
      ensures items == Reversed(old(items)) && Valid()
    {
      ReversedUnique(items);
      items := Reversed(items);
    }

    method Clear()
      modifies this
      ensures items == [] && Valid()
    {
      items := [];
    }
  }

  /** What `_traverse` finds in the file at one path. */
  datatype Step =
    | Stop                  // no `inherit` element anywhere in the document
    | Fail(failure: Failure)  // the file cannot be read or parsed, or `inherit` has no `path`
    | Follow(next: string)  // the `path` of the first `inherit` element, in document order

  /** Reading `p` and `find_all("inherit", doc)`: a read or parse failure
      raises `IOError` naming `p`; the first element found supplies the next
      path, and a missing `path` attribute raises `KeyError`. */
  function StepOf(fs: map<string, Option<Doc>>, p: string): Step
    requires Description.Readable(fs)
  {
    if p !in fs || fs[p].None? then Fail(Unreadable(p))
    else
      var doc := fs[p].value;
      var l := FindAll(doc, Elem("inherit"), 0, map[]);
      if l == [] then Stop
      else if "path" !in doc[l[0]].attrs then Fail(NoPathAttr)
      else Follow(doc[l[0]].attrs["path"])
  }

  /** A document stops the chain exactly when it is readable and has no
      `inherit` element below its root. */
  lemma StopMeans(fs: map<string, Option<Doc>>, p: string)
    requires Description.Readable(fs)
    ensures StepOf(fs, p) == Stop <==> (p in fs && fs[p].Some? &&
      forall m :: 0 <= m < |fs[p].value| && Below(fs[p].value, 0, m) ==> fs[p].value[m].tag != Elem("inherit"))
  {
    if p in fs && fs[p].Some? {
      var doc := fs[p].value;
      var l := FindAll(doc, Elem("inherit"), 0, map[]);
      forall m | 0 <= m < |doc| ensures m in l <==> Below(doc, 0, m) && doc[m].tag == Elem("inherit") {
        FindAllMem(doc, Elem("inherit"), 0, map[], m);
      }
      if l != [] {
        assert l[0] in l;
      }
    }
  }

  /** `_traverse(p)` returns, with the list holding `st` when it is called,
      within `n` nested calls: every followed path is new to the list, for
      otherwise `self.__i_stack[-1]` is not that path and the recursion
      repeats the same call for ever. */
  ghost predicate Terminates(fs: map<string, Option<Doc>>, p: string, n: nat, st: seq<string>)
    requires Description.Readable(fs)
    decreases n
  {
    n > 0 &&
    match StepOf(fs, p)
    case Follow(q) => q !in UqAppend(st, p) && Terminates(fs, q, n - 1, UqAppend(st, p) + [q])
    case _ => true
  }

  /** The list and the outcome `_traverse` leaves. */
  datatype Trace = Trace(stack: seq<string>, outcome: Result<(), Failure>)

  ghost function TraverseSpec(fs: map<string, Option<Doc>>, p: string, n: nat, st: seq<string>): (r: Trace)
    requires Description.Readable(fs) && Terminates(fs, p, n, st)
    ensures r.stack != []
    decreases n
  {
    var st1 := UqAppend(st, p);
    match StepOf(fs, p)
    case Fail(f) => Trace(st1, Err(f))
    case Stop => Trace(UqAppend(st1, p), Ok(()))
    case Follow(q) => TraverseSpec(fs, q, n - 1, st1 + [q])
  }

  /** The paths a chain of at most `n` documents visits from `p`, `p` first. */
  ghost predicate Ends(fs: map<string, Option<Doc>>, p: string, n: nat)
    requires Description.Readable(fs)
    decreases n
  {
    n > 0 && (StepOf(fs, p).Follow? ==> Ends(fs, StepOf(fs, p).next, n - 1))
  }

  ghost function Chain(fs: map<string, Option<Doc>>, p: string, n: nat): (r: seq<string>)
    requires Description.Readable(fs) && Ends(fs, p, n)
    ensures r != [] && r[0] == p
    decreases n
  {
    match StepOf(fs, p)
    case Follow(q) => [p] + Chain(fs, q, n - 1)
    case _ => [p]
  }

  lemma {:induction false} TerminatesEnds(fs: map<string, Option<Doc>>, p: string, n: nat, st: seq<string>)
    requires Description.Readable(fs) && Terminates(fs, p, n, st)
    ensures Ends(fs, p, n)
    decreases n
  {
    if StepOf(fs, p).Follow? {
      var q := StepOf(fs, p).next;
      TerminatesEnds(fs, q, n - 1, UqAppend(st, p) + [q]);
    }
  }

  /** One call of `_traverse` that does not recurse leaves the list with
      `p` on it and a chain of one document. */
  lemma TraverseEnd(fs: map<string, Option<Doc>>, p: string, n: nat, st: seq<string>)
    requires Description.Readable(fs) && Terminates(fs, p, n, st) && !StepOf(fs, p).Follow?
    ensures Ends(fs, p, n) && Chain(fs, p, n) == [p]
    ensures TraverseSpec(fs, p, n, st).stack == UqAppend(st, p)
  {
    assert p in UqAppend(st, p);
  }

  /** One call that recurses on `q`: the list and the chain continue from `q`. */
  lemma TraverseNext(fs: map<string, Option<Doc>>, p: string, n: nat, st: seq<string>)
    requires Description.Readable(fs) && Terminates(fs, p, n, st) && StepOf(fs, p).Follow?
    ensures var q := StepOf(fs, p).next; var st1 := UqAppend(st, p) + [q];
      Terminates(fs, q, n - 1, st1) &&
      TraverseSpec(fs, p, n, st) == TraverseSpec(fs, q, n - 1, st1) &&
      (Ends(fs, q, n - 1) ==> Ends(fs, p, n) && Chain(fs, p, n) == [p] + Chain(fs, q, n - 1))
  {
  }

  /** The list ends up as it was, then `p` unless it was there, then every
      later path of the chain. */
  lemma {:induction false} TraverseStack(fs: map<string, Option<Doc>>, p: string, n: nat, st: seq<string>)
    requires Description.Readable(fs) && Terminates(fs, p, n, st)
    ensures Ends(fs, p, n)
    ensures TraverseSpec(fs, p, n, st).stack == UqAppend(st, p) + Chain(fs, p, n)[1..]
    decreases n
  {
    if StepOf(fs, p).Follow? {
      var q := StepOf(fs, p).next;
      var st1 := UqAppend(st, p);
      TraverseNext(fs, p, n, st);
      TraverseStack(fs, q, n - 1, st1 + [q]);
      NextHead(st1, p, q, Chain(fs, q, n - 1));
    } else {
      TraverseEnd(fs, p, n, st);
    }
  }

  lemma NextHead(st1: seq<string>, p: string, q: string, c: seq<string>)
    requires c != [] && c[0] == q
    ensures UqAppend(st1 + [q], q) + c[1..] == st1 + ([p] + c)[1..]
  {
    assert UqAppend(st1 + [q], q) == st1 + [q];
    assert ([p] + c)[1..] == c;
    assert [q] + c[1..] == c;
  }

  /** The list never holds a path twice. */
  lemma {:induction false} TraverseUnique(fs: map<string, Option<Doc>>, p: string, n: nat, st: seq<string>)
    requires Description.Readable(fs) && Terminates(fs, p, n, st) && Unique(st)
    ensures Unique(TraverseSpec(fs, p, n, st).stack)
    decreases n
  {
    if StepOf(fs, p).Follow? {
      var q := StepOf(fs, p).next;
      var st1 := UqAppend(st, p);
      TraverseNext(fs, p, n, st);
      assert Unique(st1 + [q]);
      TraverseUnique(fs, q, n - 1, st1 + [q]);
    } else {
      TraverseEnd(fs, p, n, st);
    }
  }

  /** From a list without `p`, the acyclic chain `p0 -> ... -> pn` makes the
      list `st + [p0, ..., pn]`. */
  lemma TraverseChain(fs: map<string, Option<Doc>>, p: string, n: nat, st: seq<string>)
    requires Description.Readable(fs) && Terminates(fs, p, n, st) && p !in st
    ensures Ends(fs, p, n) && TraverseSpec(fs, p, n, st).stack == st + Chain(fs, p, n)
  {
    TraverseStack(fs, p, n, st);
    FreshHead(st, p, Chain(fs, p, n));
  }

  lemma FreshHead(st: seq<string>, p: string, c: seq<string>)
    requires p !in st && c != [] && c[0] == p
    ensures UqAppend(st, p) + c[1..] == st + c
  {
    assert [p] + c[1..] == c;
  }

  /** A lone document with no `inherit` gives the list just its own path. */
  lemma LoneDocument(fs: map<string, Option<Doc>>, p: string)
    requires Description.Readable(fs) && StepOf(fs, p) == Stop
    ensures Terminates(fs, p, 1, []) && TraverseSpec(fs, p, 1, []) == Trace([p], Ok(()))
  {
  }

  /** `_traverse` fails exactly when the last document of the chain does, and
      then with that document's failure: `IOError` for its path, or
      `KeyError` for an `inherit` without `path`. */
  lemma {:induction false} TraverseOutcome(fs: map<string, Option<Doc>>, p: string, n: nat, st: seq<string>)
    requires Description.Readable(fs) && Terminates(fs, p, n, st)
    ensures Ends(fs, p, n)
    ensures var last := Chain(fs, p, n)[|Chain(fs, p, n)| - 1];
      (TraverseSpec(fs, p, n, st).outcome.Ok? <==> StepOf(fs, last) == Stop) &&
      (TraverseSpec(fs, p, n, st).outcome.Err? ==> StepOf(fs, last) == Fail(TraverseSpec(fs, p, n, st).outcome.error))
    decreases n
  {
    TerminatesEnds(fs, p, n, st);
    if StepOf(fs, p).Follow? {
      var q := StepOf(fs, p).next;
      TraverseOutcome(fs, q, n - 1, UqAppend(st, p) + [q]);
    }
  }

  // ---------------------------------------------------------------------
  // _flatten

  /** One step of the fold: the derived document `s` applied to `base`, the
      result of the steps before; the first step has no base and behaves as
      the one-argument constructor, resolving `inherit` itself. The result is
      the `p_dom` that `to_str()` serialises. */
  ghost function MergeStep(base: Option<Doc>, s: Doc, fs: map<string, Option<Doc>>,
    yaml: string -> SetPolicy.YamlLoad, xpath: (Doc, string) -> SetPolicy.Selection): (r: Result<Doc, Failure>)
    requires Valid(s) && Description.Readable(fs) && (base.Some? ==> Valid(base.value))
    ensures r.Ok? ==> Valid(r.value)
  {
    match base
    case None =>
      (match Description.Describe(s, fs, yaml, xpath)
       case Err(f) => Err(f)
       case Ok(st) => Ok(st.base))
    case Some(b) =>
      match Description.ApplyAll(Docs(b, s), Description.Entries(s), yaml, xpath)
      case Err(f) => Err(f)
      case Ok(st) => Ok(st.base)
  }

  /** Opening and parsing the file at `p`. */
  function ReadDoc(fs: map<string, Option<Doc>>, p: string): (r: Result<Doc, Failure>)
    requires Description.Readable(fs)
    ensures r.Ok? <==> p in fs && fs[p].Some?
    ensures r.Ok? ==> Valid(r.value) && r.value == fs[p].value
    ensures r.Err? ==> r.error == Unreadable(p)
  {
    if p !in fs || fs[p].None? then Err(Unreadable(p)) else Ok(fs[p].value)
  }

  /** `for pth in stack[1:]: descr = ApplianceDescription(read(pth), base)`,
      with the two-argument constructor the call means. */
  ghost function FoldFrom(acc: Doc, ps: seq<string>, fs: map<string, Option<Doc>>,
    yaml: string -> SetPolicy.YamlLoad, xpath: (Doc, string) -> SetPolicy.Selection): (r: Result<Doc, Failure>)
    requires Valid(acc) && Description.Readable(fs)
    ensures r.Ok? ==> Valid(r.value)
    decreases |ps|
  {
    if ps == [] then Ok(acc)
    else
      match ReadDoc(fs, ps[0])
      case Err(f) => Err(f)
      case Ok(s) =>
        match MergeStep(Some(acc), s, fs, yaml, xpath)
        case Err(f) => Err(f)
        case Ok(b) => FoldFrom(b, ps[1..], fs, yaml, xpath)
  }

  /** `_flatten` on the list `ps` once reversed: the root description alone,
      then each later one built on the result so far. */
  ghost function Flattened(ps: seq<string>, fs: map<string, Option<Doc>>,
    yaml: string -> SetPolicy.YamlLoad, xpath: (Doc, string) -> SetPolicy.Selection): (r: Result<Doc, Failure>)
    requires ps != [] && Description.Readable(fs)
    ensures r.Ok? ==> Valid(r.value)
  {
    match ReadDoc(fs, ps[0])
    case Err(f) => Err(f)
    case Ok(s) =>
      match MergeStep(None, s, fs, yaml, xpath)
      case Err(f) => Err(f)
      case Ok(b) => FoldFrom(b, ps[1..], fs, yaml, xpath)
  }

  /** Flattening one more path builds that description on the result of
      flattening the ones before it. */
  lemma {:induction false} FoldSnoc(acc: Doc, ps: seq<string>, p: string, fs: map<string, Option<Doc>>,
    yaml: string -> SetPolicy.YamlLoad, xpath: (Doc, string) -> SetPolicy.Selection)
    requires Valid(acc) && Description.Readable(fs)
    ensures FoldFrom(acc, ps + [p], fs, yaml, xpath) ==
      match FoldFrom(acc, ps, fs, yaml, xpath)
      case Err(f) => Err(f)
      case Ok(b) => FoldFrom(b, [p], fs, yaml, xpath)
    decreases |ps|
  {
    if ps == [] {
      assert ps + [p] == [p];
    } else {
      assert (ps + [p])[0] == ps[0] && (ps + [p])[1..] == ps[1..] + [p];
      match ReadDoc(fs, ps[0])
      case Err(f) =>
      case Ok(s) =>
        match MergeStep(Some(acc), s, fs, yaml, xpath)
        case Err(f) =>
        case Ok(b) => FoldSnoc(b, ps[1..], p, fs, yaml, xpath);
    }
  }

  lemma FlattenSnoc(ps: seq<string>, p: string, fs: map<string, Option<Doc>>,
    yaml: string -> SetPolicy.YamlLoad, xpath: (Doc, string) -> SetPolicy.Selection)
    requires ps != [] && Description.Readable(fs)
    ensures Flattened(ps + [p], fs, yaml, xpath) ==
      match Flattened(ps, fs, yaml, xpath)
      case Err(f) => Err(f)
      case Ok(b) =>
        match ReadDoc(fs, p)
        case Err(f) => Err(f)
        case Ok(s) => MergeStep(Some(b), s, fs, yaml, xpath)
  {
    assert (ps + [p])[0] == ps[0] && (ps + [p])[1..] == ps[1..] + [p];
    match ReadDoc(fs, ps[0])
    case Err(f) =>
    case Ok(s) =>
      match MergeStep(None, s, fs, yaml, xpath)
      case Err(f) =>
      case Ok(b) =>
        FoldSnoc(b, ps[1..], p, fs, yaml, xpath);
        assert [p][1..] == [];
  }

  /** A description without `inherit` flattens to itself. */
  lemma LoneFlattens(fs: map<string, Option<Doc>>, p: string,
    yaml: string -> SetPolicy.YamlLoad, xpath: (Doc, string) -> SetPolicy.Selection)
    requires Description.Readable(fs) && StepOf(fs, p) == Stop
    ensures Flattened([p], fs, yaml, xpath) == Ok(fs[p].value)
  {
    var s := fs[p].value;
    StopMeans(fs, p);
    KidsIn(s, 0);
    if Description.FindChild(s, s[0].kids, "inherit").Some? {
      var i := Description.FindChild(s, s[0].kids, "inherit").value;
      assert i in s[0].kids;
      KidUp(s, 0, i);
    }
  }

  /** `_flatten` as written: line 51 passes two arguments to the
      one-argument constructor, so any list of two or more paths fails with
      `TypeError` once the second file is open. */
  ghost function FlattenAsWritten(ps: seq<string>, fs: map<string, Option<Doc>>,
    yaml: string -> SetPolicy.YamlLoad, xpath: (Doc, string) -> SetPolicy.Selection): (r: Result<Doc, Failure>)
    requires ps != [] && Description.Readable(fs)
  {
    match ReadDoc(fs, ps[0])
    case Err(f) => Err(f)
    case Ok(s) =>
      match Description.Describe(s, fs, yaml, xpath)
      case Err(f) => Err(f)
      case Ok(st) =>
        if |ps| == 1 then Ok(st.base)
        else if ps[1] !in fs then Err(Unreadable(ps[1]))
        else Err(TooManyArgs)
  }

  /** Every inheritance chain of two or more descriptions fails to load as
      written, though it flattens as intended when each step succeeds. */
  lemma ChainFailsAsWritten(ps: seq<string>, fs: map<string, Option<Doc>>,
    yaml: string -> SetPolicy.YamlLoad, xpath: (Doc, string) -> SetPolicy.Selection)
    requires |ps| >= 2 && Description.Readable(fs)
    ensures FlattenAsWritten(ps, fs, yaml, xpath).Err?
    ensures Flattened(ps, fs, yaml, xpath).Ok? ==> FlattenAsWritten(ps, fs, yaml, xpath) == Err(TooManyArgs)
  {
    if Flattened(ps, fs, yaml, xpath).Ok? {
      var s := fs[ps[0]].value;
      var b := MergeStep(None, s, fs, yaml, xpath).value;
      assert ps[1..][0] == ps[1];
      assert ReadDoc(fs, ps[1]).Ok?;
    }
  }

  // ---------------------------------------------------------------------
  // Methods

  /** `ApplianceDescription(s, base)`, the constructor with a base the
      call at loader.py:51 means: the policies of `s` applied to `base`. */
  method MergeOnto(base: Doc, s: Doc, fs: map<string, Option<Doc>>,
    yaml: string -> SetPolicy.YamlLoad, xpath: (Doc, string) -> SetPolicy.Selection) returns (r: Result<Doc, Failure>)
    requires Valid(base) && Valid(s) && Description.Readable(fs)
    ensures r == MergeStep(Some(base), s, fs, yaml, xpath)
  {
    var a := new Description.ApplianceDescription(s, base);
    var r1 := a.Apply(yaml, xpath);
    if r1.Err? {
      return Err(r1.error);
    }
    return Ok(a.pDom);
  }

  /** The fold of `_flatten` over the paths after the first. */
  method FoldIn(acc0: Doc, ps: seq<string>, fs: map<string, Option<Doc>>,
    yaml: string -> SetPolicy.YamlLoad, xpath: (Doc, string) -> SetPolicy.Selection) returns (r: Result<Doc, Failure>)
    requires Valid(acc0) && Description.Readable(fs)
    ensures r == FoldFrom(acc0, ps, fs, yaml, xpath)
  {
    var acc := acc0;
    var rest := ps;
    while rest != []
      invariant Valid(acc) && FoldFrom(acc0, ps, fs, yaml, xpath) == FoldFrom(acc, rest, fs, yaml, xpath)
      decreases |rest|
    {
      var s := ReadDoc(fs, rest[0]);
      if s.Err? {
        return Err(s.error);
      }
      var r1 := MergeOnto(acc, s.value, fs, yaml, xpath);
      if r1.Err? {
        return Err(r1.error);
      }
      acc := r1.value;
      rest := rest[1..];
    }
    return Ok(acc);
  }

  /** `Loader`: the inheritance stack and the three steps of `load`. */
  class Loader {
    const iStack: UqList

    constructor ()
      ensures fresh(iStack) && iStack.items == [] && iStack.Valid()
    {
      iStack := new UqList();
    }

    /** `_traverse(pth)`. */
    method Traverse(pth: string, fs: map<string, Option<Doc>>, ghost n: nat) returns (r: Result<(), Failure>)
      modifies iStack
      requires iStack.Valid() && Description.Readable(fs) && Terminates(fs, pth, n, iStack.items)
      ensures iStack.Valid()
      ensures var t := TraverseSpec(fs, pth, n, old(iStack.items)); iStack.items == t.stack && r == t.outcome
      decreases n
    {
      iStack.Append(pth);
      var step := StepOf(fs, pth);
      match step
      case Fail(f) =>
        return Err(f);
      case Stop =>
        iStack.Append(pth);
        return Ok(());
      case Follow(q) =>
        iStack.Append(q);
        var last := iStack.items[|iStack.items| - 1];
        r := Traverse(last, fs, n - 1);
    }

    /** `_flatten()`: the list is reversed in place and folded root first. */
    method Flatten(fs: map<string, Option<Doc>>, yaml: string -> SetPolicy.YamlLoad,
      xpath: (Doc, string) -> SetPolicy.Selection) returns (r: Result<Doc, Failure>)
      modifies iStack
      requires iStack.Valid() && iStack.items != [] && Description.Readable(fs)
      ensures iStack.Valid() && iStack.items == Reversed(old(iStack.items))
      ensures r == Flattened(iStack.items, fs, yaml, xpath)
    {
      iStack.Reverse();
      var ps := iStack.items;
      var s := ReadDoc(fs, ps[0]);
      if s.Err? {
        return Err(s.error);
      }
      var a := Description.Load(s.value, fs, yaml, xpath);
      if a.Err? {
        return Err(a.error);
      }
      r := FoldIn(a.value.pDom, ps[1..], fs, yaml, xpath);
    }

    /** `load(pth)`: traverse, flatten, then clear the list. An exception
        on the way leaves the list as it stands. */
    method Load(pth: string, fs: map<string, Option<Doc>>, ghost n: nat, yaml: string -> SetPolicy.YamlLoad,
      xpath: (Doc, string) -> SetPolicy.Selection) returns (r: Result<Doc, Failure>)
      modifies iStack
      requires iStack.Valid() && Description.Readable(fs) && Terminates(fs, pth, n, iStack.items)
      ensures iStack.Valid()
      ensures var t := TraverseSpec(fs, pth, n, old(iStack.items));
        if t.outcome.Err? then r == Err(t.outcome.error) && iStack.items == t.stack
        else (r == Flattened(Reversed(t.stack), fs, yaml, xpath) &&
          iStack.items == if r.Ok? then [] else Reversed(t.stack))
    {
      var t := Traverse(pth, fs, n);
      if t.Err? {
        return Err(t.error);
      }
      r := Flatten(fs, yaml, xpath);
      if r.Ok? {
        iStack.Clear();
      }
    }
  }
}
