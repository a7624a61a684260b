/** The path conversion of the kernel-composer workflow (`KkzFlow._p2a` in
    kkzflow.py): a configured location written as `dir://...` or
    `file://...` becomes a file-system path. The working directory that
    `os.path.abspath(".")` reads is a parameter. */
module KkzPaths {
  import opened Wrappers
  import opened Text

  /** What a configuration value can be: a text, or another object known by
      the text it formats to. */
  datatype Value = Str(s: string) | NonStr(shown: string)

  /** The `AssertionError` raised for a value that is not a path. */
  datatype PathError = AssertionError(message: string)

  /** `_p2a(p)` with `cwd` as the current directory. Both asserts come
      first; then every `file://` becomes `dir://`, and a path that then
      starts with `dir:///` loses its six-character scheme and keeps its
      leading `/`, while any other is taken relative to `cwd`. */
  function P2A(v: Value, cwd: string): (r: Result<string, PathError>)
    ensures v.NonStr? ==> r == Err(AssertionError("Path " + v.shown + " is not a string"))
    ensures v.Str? && !StartsWith(v.s, "dir://") && !StartsWith(v.s, "file://") ==>
      r == Err(AssertionError("Path " + v.s + " should have \"dir://\" schema"))
  {
    match v
    case NonStr(shown) => Err(AssertionError("Path " + shown + " is not a string"))
    case Str(p0) =>
      if !(StartsWith(p0, "dir://") || StartsWith(p0, "file://")) then
        Err(AssertionError("Path " + p0 + " should have \"dir://\" schema"))
      else
        var p := ReplaceAll(p0, "file://", "dir://");
        if StartsWith(p, "dir:///") then Ok(p[6..])
        else Ok(cwd + "/" + (if |p| >= 6 then p[6..] else ""))
  }

  /** No `f` in `dir://` or `dir:///`: replacing leaves such a prefix alone. */
  lemma DirPrefixKept(pre: string, x: string)
    requires pre == "dir://" || pre == "dir:///"
    ensures ReplaceAll(pre + x, "file://", "dir://") == pre + ReplaceAll(x, "file://", "dir://")
  {
    ReplaceAllSkips(pre, x, "file://", "dir://");
  }

  /** A `file://` prefix becomes `dir://`. */
  lemma FilePrefixRewritten(x: string)
    ensures ReplaceAll("file://" + x, "file://", "dir://") == "dir://" + ReplaceAll(x, "file://", "dir://")
  {
    var s := "file://" + x;
    assert StartsWith(s, "file://");
    assert s[|"file://"|..] == x;
  }

  /** A text that does not start with `/` does not after the rewriting either. */
  lemma RewriteKeepsHead(x: string)
    requires x != [] && x[0] != '/'
    ensures ReplaceAll(x, "file://", "dir://") != [] && ReplaceAll(x, "file://", "dir://")[0] != '/'
  {
  }

  /** `file://X` converts exactly as `dir://X` does. */
  lemma FileIsDir(x: string, cwd: string)
    ensures P2A(Str("file://" + x), cwd) == P2A(Str("dir://" + x), cwd)
  {
    FilePrefixRewritten(x);
    DirPrefixKept("dir://", x);
    assert StartsWith("file://" + x, "file://");
    assert StartsWith("dir://" + x, "dir://");
  }

  /** `dir:///X` is the absolute path `/X` (after the rewriting of X). */
  lemma AbsolutePath(x: string, cwd: string)
    ensures P2A(Str("dir:///" + x), cwd) == Ok("/" + ReplaceAll(x, "file://", "dir://"))
  {
    var r := ReplaceAll(x, "file://", "dir://");
    SchemeSlash(x);
    SchemeSlash(r);
    P2AOfDir("/" + x, cwd);
    ReplaceAllSkips("/", x, "file://", "dir://");
    PrefixStarts("dir:///", r, "dir:///");
  }

  /** `dir:///Y` is `dir://` followed by `/Y`. */
  lemma SchemeSlash(y: string)
    ensures "dir:///" + y == "dir://" + ("/" + y) && ("dir://" + ("/" + y))[6..] == "/" + y
  {
    assert "dir:///" == "dir://" + "/";
  }

  /** A text starting with `dir://`: the rewriting only touches what follows. */
  lemma P2AOfDir(y: string, cwd: string)
    ensures var p := "dir://" + ReplaceAll(y, "file://", "dir://");
      P2A(Str("dir://" + y), cwd) == if StartsWith(p, "dir:///") then Ok(p[6..]) else Ok(cwd + "/" + p[6..])
  {
    DirPrefixKept("dir://", y);
    PrefixStarts("dir://", y, "dir://");
  }

  lemma PrefixStarts(pre: string, x: string, p: string)
    requires p <= pre
    ensures StartsWith(pre + x, p)
  {
    assert (pre + x)[..|p|] == pre[..|p|];
  }

  /** Any other `dir://X` is `X` below the current directory. */
  lemma RelativePath(x: string, cwd: string)
    requires x == [] || x[0] != '/'
    ensures P2A(Str("dir://" + x), cwd) == Ok(cwd + "/" + ReplaceAll(x, "file://", "dir://"))
  {
    var r := ReplaceAll(x, "file://", "dir://");
    DirPrefixKept("dir://", x);
    assert StartsWith("dir://" + x, "dir://");
    var s := "dir://" + r;
    if x != [] {
      RewriteKeepsHead(x);
      assert s[6] == r[0];
      assert s[..7][6] != "dir:///"[6];
    } else {
      assert r == [] && |s| < 7;
    }
    assert !StartsWith(s, "dir:///");
    assert ("dir://" + r)[6..] == r;
  }

  /** A text in which `file://` never starts is left as it is. */
  lemma {:induction false} NothingToRewrite(x: string)
    requires forall i :: 0 <= i < |x| ==> !StartsWith(x[i..], "file://")
    ensures ReplaceAll(x, "file://", "dir://") == x
    decreases |x|
  {
    if x != [] {
      assert x[0..] == x;
      assert forall i :: 0 <= i < |x[1..]| ==> x[1..][i..] == x[i + 1..];
      NothingToRewrite(x[1..]);
      assert [x[0]] + x[1..] == x;
    }
  }
}
