/** String helpers with the meaning Python gives them: `str.split` with a
    one-character separator, `str.join`, `str.strip`, `str.startswith`,
    `str.replace` and `os.path.basename`. Every module of the model that
    parses or prints text uses these, so that each Python expression is
    written with its own semantics. */
module Text {

  /** `s.split(sep)`: the pieces between occurrences of `sep`. There is always
      at least one piece, and empty pieces are kept (`"".split(",") == [""]`). */
  function Split(s: string, sep: char): (r: seq<string>)
    ensures |r| > 0
    decreases |s|
  {
    if |s| == 0 then [""]
    else
      var rest := Split(s[1..], sep);
      if s[0] == sep then [""] + rest
      else [[s[0]] + rest[0]] + rest[1..]
  }

  /** `sep.join(xs)`. */
  function Join(xs: seq<string>, sep: string): string
  {
    if |xs| == 0 then ""
    else if |xs| == 1 then xs[0]
    else xs[0] + sep + Join(xs[1..], sep)
  }

  /** No piece of `xs` contains the separator character. */
  predicate FreeOf(xs: seq<string>, sep: char)
  {
    forall i :: 0 <= i < |xs| ==> sep !in xs[i]
  }

  /** A piece that has no separator in it splits into itself. */
  lemma {:induction false} SplitFree(a: string, sep: char)
    requires sep !in a
    ensures Split(a, sep) == [a]
    decreases |a|
  {
    if |a| > 0 {
      SplitFree(a[1..], sep);
      assert [a[0]] + a[1..] == a;
    }
  }

  /** Splitting `a + sep + t` gives `a` followed by the pieces of `t`. */
  lemma {:induction false} SplitAfterPiece(a: string, t: string, sep: char)
    requires sep !in a
    ensures Split(a + [sep] + t, sep) == [a] + Split(t, sep)
    decreases |a|
  {
    var s := a + [sep] + t;
    if |a| == 0 {
      assert s[1..] == t;
    } else {
      assert s[1..] == a[1..] + [sep] + t;
      SplitAfterPiece(a[1..], t, sep);
      assert [a[0]] + a[1..] == a;
    }
  }

  /** `s.split(c)` undoes `c.join(xs)` when no piece contains `c`. */
  lemma {:induction false} SplitJoin(xs: seq<string>, sep: char)
    requires |xs| > 0 && FreeOf(xs, sep)
    ensures Split(Join(xs, [sep]), sep) == xs
    decreases |xs|
  {
    if |xs| == 1 {
      SplitFree(xs[0], sep);
    } else {
      assert FreeOf(xs[1..], sep) by {
        forall i | 0 <= i < |xs[1..]| ensures sep !in xs[1..][i] {
          assert xs[1..][i] == xs[i + 1];
        }
      }
      SplitJoin(xs[1..], sep);
      SplitAfterPiece(xs[0], Join(xs[1..], [sep]), sep);
      assert Join(xs, [sep]) == xs[0] + [sep] + Join(xs[1..], [sep]);
    }
  }

  /** No piece of a split holds the separator. */
  lemma {:induction false} SplitPieces(s: string, sep: char)
    ensures FreeOf(Split(s, sep), sep)
    decreases |s|
  {
    if |s| > 0 {
      SplitPieces(s[1..], sep);
      var rest := Split(s[1..], sep);
      if s[0] != sep {
        var r := Split(s, sep);
        assert r[0] == [s[0]] + rest[0];
        forall i | 1 <= i < |r| ensures sep !in r[i] {
          assert r[i] == rest[i];
        }
      }
    }
  }

  /** Joining is injective on separator-free pieces. */
  lemma JoinInjective(xs: seq<string>, ys: seq<string>, sep: char)
    requires |xs| > 0 && |ys| > 0 && FreeOf(xs, sep) && FreeOf(ys, sep)
    ensures Join(xs, [sep]) == Join(ys, [sep]) <==> xs == ys
  {
    SplitJoin(xs, sep);
    SplitJoin(ys, sep);
  }

  /** The characters `str.isspace()` accepts. */
  predicate IsSpace(c: char)
  {
    var k := c as int;
    k == 32 || 9 <= k <= 13 || 28 <= k <= 31 || k == 0x85 || k == 0xA0 || k == 0x1680
    || 0x2000 <= k <= 0x200A || k == 0x2028 || k == 0x2029 || k == 0x202F || k == 0x205F
    || k == 0x3000
  }

  /** `s.lstrip()`: the suffix left after the leading white space. */
  function TrimLeft(s: string): (r: string)
    ensures |r| <= |s| && (r != [] ==> !IsSpace(r[0]))
    ensures r == s[|s| - |r|..]
    ensures forall i :: 0 <= i < |s| - |r| ==> IsSpace(s[i])
    decreases |s|
  {
    if |s| > 0 && IsSpace(s[0]) then
      var r := TrimLeft(s[1..]);
      assert forall i :: 1 <= i < |s| ==> s[i] == s[1..][i - 1];
      r
    else s
  }

  /** `s.rstrip()`: the prefix left before the trailing white space. */
  function TrimRight(s: string): (r: string)
    ensures |r| <= |s| && (r != [] ==> !IsSpace(r[|r| - 1]))
    ensures r == s[..|r|]
    ensures forall i :: |r| <= i < |s| ==> IsSpace(s[i])
    decreases |s|
  {
    if |s| > 0 && IsSpace(s[|s| - 1]) then
      var r := TrimRight(s[..|s| - 1]);
      assert forall i :: 0 <= i < |s| - 1 ==> s[i] == s[..|s| - 1][i];
      r
    else s
  }

  /** `s.strip()`: the text between the leading and trailing white space;
      what is cut off on either side is white space. */
  function Strip(s: string): (r: string)
    ensures |r| <= |s|
    ensures r != [] ==> !IsSpace(r[0]) && !IsSpace(r[|r| - 1])
    ensures exists k :: (0 <= k <= |s| - |r| && r == s[k..][..|r|]
      && Blank(s[..k]) && Blank(s[k + |r|..]))
  {
    var l := TrimLeft(s);
    var r := TrimRight(l);
    StripCut(s, l, r);
    var k := |s| - |l|;
    assert Blank(s[..k]) && Blank(s[k + |r|..]);
    r
  }

  /** Every character of `t` is white space. */
  predicate Blank(t: string)
  {
    forall i :: 0 <= i < |t| ==> IsSpace(t[i])
  }

  /** The two trims leave an infix of `s`, starting after the `|s| - |l|`
      characters the left trim dropped. */
  lemma StripCut(s: string, l: string, r: string)
    requires l == TrimLeft(s) && r == TrimRight(l)
    ensures |r| <= |l| <= |s| && r == s[|s| - |l|..][..|r|]
    ensures forall i :: 0 <= i < |s| - |l| ==> IsSpace(s[i])
    ensures forall i :: |s| - |l| + |r| <= i < |s| ==> IsSpace(s[i])
  {
    var k := |s| - |l|;
    assert l == s[k..];
    assert forall i :: k + |r| <= i < |s| ==> s[i] == l[i - k];
  }

  /** Only white space is stripped from the left. */
  lemma {:induction false} TrimLeftBlank(s: string)
    ensures TrimLeft(s) == "" <==> forall i :: 0 <= i < |s| ==> IsSpace(s[i])
    decreases |s|
  {
    if |s| > 0 && IsSpace(s[0]) {
      TrimLeftBlank(s[1..]);
      assert forall i :: 1 <= i < |s| ==> s[i] == s[1..][i - 1];
    }
  }

  /** Only white space is stripped from the right. */
  lemma {:induction false} TrimRightBlank(s: string)
    ensures TrimRight(s) == "" <==> forall i :: 0 <= i < |s| ==> IsSpace(s[i])
    decreases |s|
  {
    if |s| > 0 && IsSpace(s[|s| - 1]) {
      TrimRightBlank(s[..|s| - 1]);
      assert forall i :: 0 <= i < |s| - 1 ==> s[i] == s[..|s| - 1][i];
    }
  }

  /** `s.strip()` is empty exactly when every character of `s` is white space. */
  lemma StripBlank(s: string)
    ensures Strip(s) == "" <==> forall i :: 0 <= i < |s| ==> IsSpace(s[i])
  {
    var l := TrimLeft(s);
    TrimLeftBlank(s);
    TrimRightBlank(l);
    if l != [] {
      assert !IsSpace(l[0]);
      assert l == s[|s| - |l|..];
      assert s[|s| - |l|] == l[0];
    }
  }

  /** `s.startswith(p)`. */
  predicate StartsWith(s: string, p: string)
  {
    |p| <= |s| && s[..|p|] == p
  }

  /** `s.replace(pat, rep)`: every occurrence, leftmost first, without overlap. */
  function ReplaceAll(s: string, pat: string, rep: string): string
    requires |pat| > 0
    decreases |s|
  {
    if StartsWith(s, pat) then rep + ReplaceAll(s[|pat|..], pat, rep)
    else if |s| == 0 then ""
    else [s[0]] + ReplaceAll(s[1..], pat, rep)
  }

  /** A prefix in which no occurrence of `pat` can start is kept as it is. */
  lemma {:induction false} ReplaceAllSkips(a: string, t: string, pat: string, rep: string)
    requires |pat| > 0
    requires forall i :: 0 <= i < |a| ==> a[i] != pat[0]
    ensures ReplaceAll(a + t, pat, rep) == a + ReplaceAll(t, pat, rep)
    decreases |a|
  {
    if |a| > 0 {
      var s := a + t;
      assert s[0] == a[0];
      assert !StartsWith(s, pat);
      assert s[1..] == a[1..] + t;
      ReplaceAllSkips(a[1..], t, pat, rep);
      assert [a[0]] + a[1..] == a;
    } else {
      assert a + t == t;
    }
  }

  /** Stripping leaves a string alone that neither starts nor ends with
      white space. */
  lemma StripKeeps(s: string)
    requires s != [] ==> !IsSpace(s[0]) && !IsSpace(s[|s| - 1])
    ensures Strip(s) == s
  {
  }

  /** `os.path.basename(p)`: the text after the last `/`. */
  function Basename(p: string): (r: string)
    ensures '/' !in r && |r| <= |p| && r == p[|p| - |r|..]
    ensures |r| < |p| ==> p[|p| - |r| - 1] == '/'
    decreases |p|
  {
    if p == [] || p[|p| - 1] == '/' then ""
    else
      var b := Basename(p[..|p| - 1]);
      assert p[..|p| - 1][|p| - 1 - |b|..] == p[|p| - 1 - |b|..|p| - 1];
      b + [p[|p| - 1]]
  }

  /** `os.path.basename` of a path with a last `/` before `t`. */
  lemma {:induction false} BasenameAfterSlash(a: string, t: string)
    requires '/' !in t
    ensures Basename(a + "/" + t) == t
    decreases |t|
  {
    var p := a + "/" + t;
    if t != [] {
      assert t[|t| - 1] in t;
      assert p[..|p| - 1] == a + "/" + t[..|t| - 1];
      var u := t[..|t| - 1];
      assert '/' !in u by {
        forall i | 0 <= i < |u| ensures u[i] != '/' {
          assert u[i] == t[i] && t[i] in t;
        }
      }
      BasenameAfterSlash(a, t[..|t| - 1]);
      assert t[..|t| - 1] + [t[|t| - 1]] == t;
    } else {
      assert p[|p| - 1] == '/';
    }
  }

  /** The basename is empty exactly for an empty path or one that ends in `/`. */
  lemma BasenameEmpty(p: string)
    ensures Basename(p) == "" <==> p == "" || p[|p| - 1] == '/'
  {
    if p != [] && p[|p| - 1] != '/' {
      assert |Basename(p)| == |Basename(p[..|p| - 1])| + 1;
    }
  }
}
