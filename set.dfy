/** `_set` (descr.py:229-247): the text of the policy element is YAML for a
    mapping of attributes, the `xpath` attribute selects the target nodes, and
    every selected node gets each pair of the mapping. XPath and YAML
    evaluation are outside the model: their outcomes are parameters. */
module SetPolicy {
  import opened Wrappers
  import opened Xml
  import opened Policy
  import Text

  /** What `yaml.safe_load` did with the text: a scanner error (caught and
      logged), another YAML error (propagated), a value that is not a mapping
      of strings to strings, or a mapping of attributes. */
  datatype YamlLoad = ScanFailed | Failed | NotMapping | Loaded(pairs: Attrs)

  /** One item iterated over in the result of `p_dom.xpath(expr)`: a node of
      the document, or something that is not a node (a string item of a list
      result, or a character of a string result). */
  datatype Hit = At(node: Node) | Scalar

  /** The outcome of `p_dom.xpath(expr)`: the items iterated over, or
      `Invalid` when the expression fails or its value cannot be iterated (a
      number or a boolean, which `for` rejects even with nothing to set). */
  datatype Selection = Selected(hits: seq<Hit>) | Invalid

  /** The stripped lines of `s` that are not empty. */
  function Lines(xs: seq<string>): (r: seq<string>)
    ensures forall i :: 0 <= i < |r| ==> r[i] != ""
  {
    if xs == [] then []
    else
      var l := Text.Strip(xs[0]);
      (if l == "" then [] else [l]) + Lines(xs[1..])
  }

  /** The text handed to `yaml.safe_load`: the non-empty stripped lines of the
      policy text, joined by `os.linesep` ("\n" on the systems kiwi runs on). */
  function YamlSource(text: string): string
  {
    Text.Join(Lines(Text.Split(text, '\n')), "\n")
  }

  /** A hit that can take attributes: an element of the document. */
  predicate Settable(d: Doc, h: Hit)
  {
    h.At? && h.node < |d| && d[h.node].tag.Elem?
  }

  /** `for t_tag in hits: for k, v in pairs.items(): t_tag.set(k, v)`. A hit
      that is not an element fails at its first `set` (a scalar has no `set`,
      a comment refuses attributes); with no pairs nothing is called. */
  function SetEach(d: Doc, hits: seq<Hit>, pairs: Attrs): (r: Result<Doc, Failure>)
    requires Valid(d)
    ensures r.Ok? ==> Valid(r.value) && |r.value| == |d|
    ensures r.Err? ==> r.error == NotElement
    decreases |hits|
  {
    if hits == [] then Ok(d)
    else if pairs == map[] then SetEach(d, hits[1..], pairs)
    else if Settable(d, hits[0]) then SetEach(SetAttrs(d, hits[0].node, pairs), hits[1..], pairs)
    else Err(NotElement)
  }

  /** The specification of `_set` for the entry `e`, given what the YAML
      loader makes of the entry's text and what the `xpath` attribute selects
      in `p_dom`. */
  ghost function Set(st: Docs, e: Node, yaml: string -> YamlLoad, xpath: (Doc, string) -> Selection): (r: Result<Docs, Failure>)
    requires Good(st) && e < |st.derived|
    ensures r.Ok? ==> Good(r.value) && r.value.derived == st.derived && |r.value.base| == |st.base|
  {
    var op := st.derived[e];
    if op.text.None? then Err(NoText)
    else
      var attrs := Text.Strip(op.text.value);
      if "xpath" !in op.attrs || attrs == "" then Ok(st)
      else
        match yaml(YamlSource(attrs))
        case ScanFailed => Ok(st)
        case Failed => Err(BadYaml)
        case NotMapping =>
          (match xpath(st.base, op.attrs["xpath"])
           case Invalid => Err(BadXPath)
           case Selected(hits) => if hits == [] then Ok(st) else Err(NotAttrs))
        case Loaded(pairs) =>
          (match xpath(st.base, op.attrs["xpath"])
           case Invalid => Err(BadXPath)
           case Selected(hits) =>
             match SetEach(st.base, hits, pairs)
             case Err(f) => Err(f)
             case Ok(b) => Ok(Docs(b, st.derived)))
  }

  /** Setting the pairs fails exactly when some hit is not an element and
      there is something to set. */
  lemma {:induction false} SetEachFails(d: Doc, hits: seq<Hit>, pairs: Attrs)
    requires Valid(d)
    ensures SetEach(d, hits, pairs).Err? <==>
      pairs != map[] && exists i :: 0 <= i < |hits| && !Settable(d, hits[i])
    decreases |hits|
  {
    if hits != [] {
      if pairs == map[] {
        SetEachFails(d, hits[1..], pairs);
      } else if Settable(d, hits[0]) {
        var d1 := SetAttrs(d, hits[0].node, pairs);
        SetEachFails(d1, hits[1..], pairs);
        assert forall i :: 0 <= i < |hits| ==> (Settable(d1, hits[i]) <==> Settable(d, hits[i]));
        assert forall i :: 1 <= i < |hits| ==> hits[i] == hits[1..][i - 1];
      }
    }
  }

  /** Each selected element gets every pair, and nothing else changes: its
      other attributes are kept, other nodes are untouched. */
  lemma {:induction false} SetEachPairs(d: Doc, hits: seq<Hit>, pairs: Attrs, x: Node)
    requires Valid(d) && SetEach(d, hits, pairs).Ok? && x < |d|
    ensures SetEach(d, hits, pairs).value[x] ==
      if At(x) in hits && pairs != map[] then d[x].(attrs := d[x].attrs + pairs) else d[x]
    decreases |hits|
  {
    if hits != [] {
      if pairs == map[] {
        SetEachPairs(d, hits[1..], pairs, x);
        assert forall h :: h in hits[1..] ==> h in hits;
      } else {
        assert Settable(d, hits[0]);
        var n := hits[0].node;
        var d1 := SetAttrs(d, n, pairs);
        assert SetEach(d, hits, pairs) == SetEach(d1, hits[1..], pairs);
        SetEachPairs(d1, hits[1..], pairs, x);
        assert At(x) in hits <==> x == n || At(x) in hits[1..] by {
          assert hits == [hits[0]] + hits[1..];
        }
        if x == n {
          MergeTwice(d[x].attrs, pairs);
        } else {
          assert d1[x] == d[x];
        }
      }
    }
  }

  /** Setting the same pairs twice is setting them once. */
  lemma MergeTwice(a: Attrs, m: Attrs)
    ensures a + m + m == a + m
  {
  }

  /** The cases in which `_set` leaves the tree as it is. */
  lemma SetUnchanged(st: Docs, e: Node, yaml: string -> YamlLoad, xpath: (Doc, string) -> Selection)
    requires Good(st) && e < |st.derived| && st.derived[e].text.Some?
    requires "xpath" !in st.derived[e].attrs || Text.Strip(st.derived[e].text.value) == ""
      || yaml(YamlSource(Text.Strip(st.derived[e].text.value))) == ScanFailed
    ensures Set(st, e, yaml, xpath) == Ok(st)
  {
  }

  /** A policy element without text makes `e.text.strip()` fail. */
  lemma SetNoText(st: Docs, e: Node, yaml: string -> YamlLoad, xpath: (Doc, string) -> Selection)
    requires Good(st) && e < |st.derived|
    ensures Set(st, e, yaml, xpath) == Err(NoText) <==> st.derived[e].text.None?
  {
  }

  /** The YAML text holds exactly the non-empty stripped lines, in order. */
  lemma YamlLines(text: string)
    requires Lines(Text.Split(text, '\n')) != []
    ensures Text.Split(YamlSource(text), '\n') == Lines(Text.Split(text, '\n'))
  {
    Text.SplitPieces(text, '\n');
    LinesFree(Text.Split(text, '\n'));
    Text.SplitJoin(Lines(Text.Split(text, '\n')), '\n');
  }

  lemma {:induction false} LinesFree(xs: seq<string>)
    requires Text.FreeOf(xs, '\n')
    ensures Text.FreeOf(Lines(xs), '\n')
  {
    if xs != [] {
      assert Text.FreeOf(xs[1..], '\n') by {
        forall i | 0 <= i < |xs[1..]| ensures '\n' !in xs[1..][i] {
          assert xs[1..][i] == xs[i + 1];
        }
      }
      LinesFree(xs[1..]);
      var l := Text.Strip(xs[0]);
      assert '\n' !in l by { StripInside(xs[0]); }
      var h := if l == "" then [] else [l];
      var t := Lines(xs[1..]);
      assert Lines(xs) == h + t;
      assert Text.FreeOf(h + t, '\n') by {
        forall i | 0 <= i < |h + t| ensures '\n' !in (h + t)[i] {
          if i >= |h| {
            assert (h + t)[i] == t[i - |h|];
          }
        }
      }
    }
  }

  /** Stripping keeps a part of the text. */
  lemma StripInside(s: string)
    ensures forall c :: c in Text.Strip(s) ==> c in s
  {
    var l := Text.TrimLeft(s);
    assert l == s[|s| - |l|..];
    assert Text.Strip(s) == l[..|Text.Strip(s)|];
    forall c | c in Text.Strip(s) ensures c in s {
      var i :| 0 <= i < |Text.Strip(s)| && Text.Strip(s)[i] == c;
      assert l[i] == c;
      assert s[|s| - |l| + i] == c;
    }
  }
}
