/** The repository arguments that `KiwiAppBox` hands to a boxed kiwi build
    (kiwiapp.py): the `--ignore-repos` / `--add-repo` token string built from
    the repository table, and the path of the argument file relative to the
    box root. Writing the file and starting the build are I/O and are not
    part of the model. */
module KiwiArgs {
  import opened Text

  /** One entry of the repository dict: its key and its settings. Every
      setting is taken to be text. */
  datatype Repo = Repo(name: string, content: map<string, string>)

  /** `content.get(key)` as an f-string renders it: a missing key shows as
      the text of `None`, unless the call gives its own default. */
  function Setting(content: map<string, string>, key: string, default: string): string
  {
    if key in content then content[key] else default
  }

  /** The components of a repository: its `components` setting, `/` when
      there is none, split at commas. */
  function Components(r: Repo): (cs: seq<string>)
    ensures |cs| > 0
  {
    Split(Setting(r.content, "components", "/"), ',')
  }

  /** The ten comma-separated fields of one `--add-repo` value: source, type,
      alias, priority, imageinclude, package_gpgcheck, braced signing keys,
      component, distribution, repo_gpgcheck. */
  function Fields(r: Repo, component: string): (fs: seq<string>)
    ensures |fs| == 10
  {
    [Setting(r.content, "url", "None"), Setting(r.content, "type", "None"), r.name, "", "", "",
     "{" + Setting(r.content, "key", "None") + "}",
     if component != "/" then component else "",
     Setting(r.content, "name", ""), "false"]
  }

  /** The `--add-repo` value for one component: the seven f-strings of
      kiwiapp.py:110-116, concatenated left to right. */
  function AddRepoValue(r: Repo, component: string): string
  {
    (Setting(r.content, "url", "None") + ",") +
    (Setting(r.content, "type", "None") + ",") +
    (r.name + ",,,,") +
    ("{" + Setting(r.content, "key", "None") + "},") +
    ((if component != "/" then component else "") + ",") +
    (Setting(r.content, "name", "") + ",") +
    "false"
  }

  /** The tokens one repository adds for the components `cs`. */
  function ComponentArgs(r: Repo, cs: seq<string>): seq<string>
    decreases |cs|
  {
    if cs == [] then [] else ["--add-repo", AddRepoValue(r, cs[0])] + ComponentArgs(r, cs[1..])
  }

  /** The tokens of the repositories in `repos`, in order. */
  function RepoArgs(repos: seq<Repo>): seq<string>
    decreases |repos|
  {
    if repos == [] then [] else ComponentArgs(repos[0], Components(repos[0])) + RepoArgs(repos[1..])
  }

  /** The whole token list of `_generate_repo_string`. */
  function RepoOptions(repos: seq<Repo>): seq<string>
  {
    ["--ignore-repos"] + RepoArgs(repos)
  }

  /** The number of components over all repositories. */
  function ComponentCount(repos: seq<Repo>): nat
    decreases |repos|
  {
    if repos == [] then 0 else |Components(repos[0])| + ComponentCount(repos[1..])
  }

  /** The inner loop of `_generate_repo_string`: two tokens per component. */
  method AppendComponents(opts0: seq<string>, repo: Repo, components: seq<string>) returns (opts: seq<string>)
    ensures opts == opts0 + ComponentArgs(repo, components)
  {
    opts := opts0;
    var cs := components;
    while cs != []
      invariant opts0 + ComponentArgs(repo, components) == opts + ComponentArgs(repo, cs)
      decreases |cs|
    {
      opts := opts + ["--add-repo"];
      opts := opts + [AddRepoValue(repo, cs[0])];
      cs := cs[1..];
    }
  }

  /** `_generate_repo_string(repos)`: the nested loops append the tokens and
      the list is joined with single spaces. */
  method GenerateRepoString(repos: seq<Repo>) returns (r: string)
    ensures r == Join(RepoOptions(repos), " ")
  {
    var opts := ["--ignore-repos"];
    var rest := repos;
    while rest != []
      invariant RepoOptions(repos) == opts + RepoArgs(rest)
      decreases |rest|
    {
      var repo := rest[0];
      ArgsStep(opts, rest);
      opts := AppendComponents(opts, repo, Components(repo));
      rest := rest[1..];
    }
    assert opts + RepoArgs(rest) == opts;
    r := Join(opts, " ");
  }

  lemma ArgsStep(opts: seq<string>, repos: seq<Repo>)
    requires repos != []
    ensures opts + RepoArgs(repos) == (opts + ComponentArgs(repos[0], Components(repos[0]))) + RepoArgs(repos[1..])
  {
  }

  lemma Assoc(a: string, b: string, c: string)
    ensures a + (b + c) == (a + b) + c
  {
  }

  /** Each value is the ten fields joined by commas, and when no setting used
      holds a comma, splitting it at commas gives the ten fields back. */
  lemma AddRepoFields(r: Repo, component: string)
    ensures AddRepoValue(r, component) == Join(Fields(r, component), ",")
    ensures FreeOf(Fields(r, component), ',') ==> Split(AddRepoValue(r, component), ',') == Fields(r, component)
  {
    var f := Fields(r, component);
    var key := "{" + Setting(r.content, "key", "None") + "}";
    assert "{" + Setting(r.content, "key", "None") + "}," == key + ",";
    JoinTen(f[0], f[1], f[2], key, f[7], f[8]);
    if FreeOf(f, ',') {
      SplitJoin(f, ',');
    }
  }

  /** Ten fields joined by commas, the shape of an `--add-repo` value: three
      fields, three empty ones, three more and `false`. */
  lemma JoinTen(a: string, b: string, c: string, k: string, e: string, g: string)
    ensures Join([a, b, c, "", "", "", k, e, g, "false"], ",")
      == (a + ",") + (b + ",") + (c + ",,,,") + (k + ",") + (e + ",") + (g + ",") + "false"
  {
    var f := [a, b, c, "", "", "", k, e, g, "false"];
    forall i | 0 <= i < 9
      ensures Join(f[i..], ",") == f[i] + "," + Join(f[i + 1..], ",")
    {
      assert f[i..][0] == f[i] && f[i..][1..] == f[i + 1..];
    }
    var p1, p2, p3 := a + ",", b + ",", c + ",,,,";
    var p4, p5, p6, p7 := k + ",", e + ",", g + ",", "false";
    var s6 := Join(f[6..], ",");
    assert f[9..] == [f[9]];
    assert Join(f[7..], ",") == p5 + (p6 + p7);
    assert s6 == p4 + (p5 + (p6 + p7)) by {
      Assoc(k + ",", p5, p6 + p7);
      Assoc(k, ",", p5 + (p6 + p7));
    }
    assert Join(f[2..], ",") == p3 + s6 by {
      assert Join(f[3..], ",") == "," + ("," + ("," + s6));
      assert c + "," + ("," + ("," + ("," + s6))) == p3 + s6;
    }
    calc {
      Join(f, ",");
      p1 + (p2 + (p3 + (p4 + (p5 + (p6 + p7)))));
      { Assoc(p5, p6, p7); }
      p1 + (p2 + (p3 + (p4 + ((p5 + p6) + p7))));
      { Assoc(p4, p5 + p6, p7); }
      p1 + (p2 + (p3 + ((p4 + (p5 + p6)) + p7)));
      { Assoc(p4, p5, p6); }
      p1 + (p2 + (p3 + (((p4 + p5) + p6) + p7)));
      { Assoc(p3, (p4 + p5) + p6, p7); Assoc(p3, p4 + p5, p6); Assoc(p3, p4, p5); }
      p1 + (p2 + ((((p3 + p4) + p5) + p6) + p7));
      { Assoc(p2, ((p3 + p4) + p5) + p6, p7); Assoc(p2, (p3 + p4) + p5, p6);
        Assoc(p2, p3 + p4, p5); Assoc(p2, p3, p4); }
      p1 + (((((p2 + p3) + p4) + p5) + p6) + p7);
      { Assoc(p1, (((p2 + p3) + p4) + p5) + p6, p7); Assoc(p1, ((p2 + p3) + p4) + p5, p6);
        Assoc(p1, (p2 + p3) + p4, p5); Assoc(p1, p2 + p3, p4); Assoc(p1, p2, p3); }
      (((((p1 + p2) + p3) + p4) + p5) + p6) + p7;
    }
  }

  /** The token string starts with `--ignore-repos`. */
  lemma IgnoreReposFirst(repos: seq<Repo>)
    ensures StartsWith(Join(RepoOptions(repos), " "), "--ignore-repos")
  {
    var xs := RepoOptions(repos);
    var j := Join(xs, " ");
    if |xs| > 1 {
      assert j == ("--ignore-repos" + " ") + Join(xs[1..], " ");
      assert j[..|"--ignore-repos"|] == "--ignore-repos";
    }
  }

  /** When no token holds a space, splitting the string at spaces gives the
      token list back. */
  lemma TokensRoundTrip(repos: seq<Repo>)
    requires FreeOf(RepoOptions(repos), ' ')
    ensures Split(Join(RepoOptions(repos), " "), ' ') == RepoOptions(repos)
  {
    SplitJoin(RepoOptions(repos), ' ');
  }

  /** A repository gives, for its i-th component, `--add-repo` at position
      2i and that component's value right after it. */
  lemma {:induction false} ComponentArgsAt(r: Repo, cs: seq<string>)
    ensures |ComponentArgs(r, cs)| == 2 * |cs|
    ensures forall i :: 0 <= i < |cs| ==>
      ComponentArgs(r, cs)[2 * i] == "--add-repo" && ComponentArgs(r, cs)[2 * i + 1] == AddRepoValue(r, cs[i])
    decreases |cs|
  {
    if cs != [] {
      ComponentArgsAt(r, cs[1..]);
      var t := ComponentArgs(r, cs[1..]);
      assert ComponentArgs(r, cs) == ["--add-repo", AddRepoValue(r, cs[0])] + t;
      forall i | 1 <= i < |cs|
        ensures ComponentArgs(r, cs)[2 * i] == "--add-repo" && ComponentArgs(r, cs)[2 * i + 1] == AddRepoValue(r, cs[i])
      {
        assert cs[1..][i - 1] == cs[i];
        assert ComponentArgs(r, cs)[2 * i] == t[2 * (i - 1)];
        assert ComponentArgs(r, cs)[2 * i + 1] == t[2 * (i - 1) + 1];
      }
    }
  }

  /** Repositories contribute in dict order: the tokens of `a + b` are those
      of `a` followed by those of `b`. */
  lemma {:induction false} RepoArgsAppend(a: seq<Repo>, b: seq<Repo>)
    ensures RepoArgs(a + b) == RepoArgs(a) + RepoArgs(b)
    decreases |a|
  {
    if a == [] {
      assert a + b == b;
    } else {
      assert (a + b)[0] == a[0] && (a + b)[1..] == a[1..] + b;
      RepoArgsAppend(a[1..], b);
    }
  }

  /** One `--add-repo` and one value per component, over all repositories. */
  lemma {:induction false} RepoArgsCount(repos: seq<Repo>)
    ensures |RepoArgs(repos)| == 2 * ComponentCount(repos)
    decreases |repos|
  {
    if repos != [] {
      ComponentArgsAt(repos[0], Components(repos[0]));
      RepoArgsCount(repos[1..]);
    }
  }

  /** A repository without `components` contributes exactly one value, for
      the default component `/`, which shows as an empty field. */
  lemma DefaultComponent(r: Repo)
    requires "components" !in r.content
    ensures Components(r) == ["/"]
    ensures ComponentArgs(r, Components(r)) == ["--add-repo", AddRepoValue(r, "/")]
    ensures Fields(r, "/")[7] == ""
  {
    SplitFree("/", ',');
    assert ["/"][1..] == [];
  }

  /** What each field of a value holds: the alias is the repository name,
      three fields stay empty, the key is braced, only the component `/`
      (or an empty one) gives an empty component field, a repository
      without `name` has an empty distribution, and the last field is
      always `false`. */
  lemma FieldsMeaning(r: Repo, component: string)
    ensures var fs := Fields(r, component);
      && fs[0] == Setting(r.content, "url", "None") && fs[1] == Setting(r.content, "type", "None")
      && fs[2] == r.name && fs[3] == "" && fs[4] == "" && fs[5] == ""
      && |fs[6]| >= 2 && fs[6][0] == '{' && fs[6][|fs[6]| - 1] == '}'
      && (fs[7] == "" <==> component == "/" || component == "")
      && (fs[7] != "" ==> fs[7] == component)
      && ("name" !in r.content ==> fs[8] == "")
      && fs[9] == "false"
  {
  }

  // ---------------------------------------------------------------------
  // Paths

  /** `os.path.join(a, b)` on POSIX: an absolute `b` replaces `a`; otherwise
      a `/` is put between them unless `a` is empty or already ends in one. */
  function PathJoin(a: string, b: string): string
  {
    if |b| > 0 && b[0] == '/' then b
    else if a == "" || a[|a| - 1] == '/' then a + b
    else a + "/" + b
  }

  /** `_get_relative_path()`: `os.path.join("/", basename(tmpd), "args.txt")`. */
  function RelativePath(tmpd: string): string
  {
    PathJoin(PathJoin("/", Basename(tmpd)), "args.txt")
  }

  /** `os.path.join("/", b, "args.txt")` for a `b` without `/`. */
  lemma JoinUnderRoot(b: string)
    requires '/' !in b
    ensures b != "" ==> PathJoin(PathJoin("/", b), "args.txt") == "/" + b + "/args.txt"
    ensures b == "" ==> PathJoin(PathJoin("/", b), "args.txt") == "/args.txt"
  {
    var head := PathJoin("/", b);
    if b != "" {
      assert b[0] in b && b[|b| - 1] in b;
      assert head == "/" + b;
      assert head[|head| - 1] == b[|b| - 1];
      assert "args.txt"[0] == 'a';
    } else {
      assert head == "/";
    }
  }

  /** The path is `/<basename>/args.txt`, except that a directory given with
      a trailing `/` (or none at all) has an empty basename and gives
      `/args.txt`. */
  lemma RelativePathShape(tmpd: string)
    ensures Basename(tmpd) != "" ==> RelativePath(tmpd) == "/" + Basename(tmpd) + "/args.txt"
    ensures Basename(tmpd) == "" ==> RelativePath(tmpd) == "/args.txt"
  {
    JoinUnderRoot(Basename(tmpd));
  }
}
