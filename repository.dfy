/** `Repository._parse_spec`: a resource spec `[repo/]resource[:[sign]version]`
    read into its four parts. */
module Repository {
  import opened Outcomes
  import opened Text

  /** A value of the parsed dictionary: a string or `None`. */
  datatype Value = Str(s: string) | Null

  /** A dictionary from names to values. */
  type Record = map<string, Value>

  /** The argument: a dictionary already parsed, or the spec text. */
  datatype SpecArg = DictSpec(d: Record) | TextSpec(s: string)

  /** The four parts of a spec. */
  datatype Parsed = Parsed(repo: string, resourceName: string, version: Option<string>, versionSign: string)

  /** `s.split(c, 1)` when `c in s`: the text before the first `c` and the
      rest after it. */
  function Cut(s: string, c: char): (r: Option<(string, string)>)
    ensures r.None? <==> c !in s
    ensures r.Some? ==> s == r.value.0 + [c] + r.value.1 && c !in r.value.0
  {
    match Find(s, c)
    case None => None
    case Some(i) =>
      assert s == s[..i] + [c] + s[i + 1..];
      Some((s[..i], s[i + 1..]))
  }

  /** Lines 235-239: the repository before the first `/`, or `resources`. */
  function Repos(repos: string): (r: (string, string))
    ensures '/' !in repos ==> r == ("resources", repos)
    ensures '/' in repos ==> repos == r.0 + "/" + r.1 && '/' !in r.0
  {
    match Cut(repos, '/')
    case None => ("resources", repos)
    case Some(parts) => parts
  }

  /** Lines 240-249: the comparison sign and the version after it. A two
      character sign is looked for anywhere in the version but taken from its
      start, and so is a one character sign. */
  function SignOf(version: Option<string>): (r: (string, Option<string>))
    ensures version.None? ==> r == (">=", None)
    ensures version.Some? ==> r.1.Some? && (r.0 + r.1.value == version.value || r == ("==", version))
  {
    match version
    case None => (">=", None)
    case Some(v) =>
      if Contains(v, ">=") || Contains(v, "<=") || Contains(v, "==") then
        ContainsLong(v, if Contains(v, ">=") then ">=" else if Contains(v, "<=") then "<=" else "==");
        assert v == v[..2] + v[2..];
        (v[..2], Some(v[2..]))
      else if '>' in v || '<' in v then
        assert v == v[..1] + v[1..];
        (v[..1], Some(v[1..]))
      else ("==", version)
  }

  /** Lines 230-249 for the spec text. */
  function ParseText(s: string): Parsed {
    var (repos, version) := match Cut(s, ':') case None => (s, None) case Some(p) => (p.0, Some(p.1));
    var (repo, name) := Repos(repos);
    var (sign, ver) := SignOf(version);
    Parsed(repo, name, ver, sign)
  }

  /** The dictionary of lines 250-255. */
  function AsRecord(p: Parsed): (r: Record)
    ensures r.Keys == {"repo", "resource_name", "version", "version_sign"}
    ensures r["repo"] == Str(p.repo) && r["resource_name"] == Str(p.resourceName)
    ensures r["version"] == (if p.version.Some? then Str(p.version.value) else Null)
    ensures r["version_sign"] == Str(p.versionSign)
  {
    map["repo" := Str(p.repo), "resource_name" := Str(p.resourceName),
        "version" := (if p.version.Some? then Str(p.version.value) else Null),
        "version_sign" := Str(p.versionSign)]
  }

  /** `Repository._parse_spec(spec)`: a dictionary comes back as it is; a
      text gives a dictionary of exactly the four keys. */
  function ParseSpec(spec: SpecArg): (r: Record)
    ensures spec.DictSpec? ==> r == spec.d
    ensures spec.TextSpec? ==> r.Keys == {"repo", "resource_name", "version", "version_sign"}
  {
    match spec
    case DictSpec(d) => d
    case TextSpec(s) => AsRecord(ParseText(s))
  }

  // ---------------------------------------------------------------------------
  // Substrings.

  /** A text that holds `sub` is at least as long. */
  lemma {:induction false} ContainsLong(s: string, sub: string)
    requires Contains(s, sub)
    ensures |sub| <= |s|
  {
    if !(|sub| <= |s| && s[..|sub|] == sub) {
      ContainsLong(s[1..], sub);
    }
  }

  /** A text that holds `sub` holds its first character. */
  lemma {:induction false} ContainsHead(s: string, sub: string)
    requires sub != [] && Contains(s, sub)
    ensures sub[0] in s
  {
    if |sub| <= |s| && s[..|sub|] == sub {
      assert s[0] == sub[0];
    } else {
      ContainsHead(s[1..], sub);
    }
  }

  /** Appending text none of whose characters occur in `sub` does not make
      `sub` appear. */
  lemma {:induction false} ContainsAppend(a: string, b: string, sub: string)
    requires sub != [] && forall i :: 0 <= i < |sub| ==> sub[i] !in b
    ensures Contains(a + b, sub) == Contains(a, sub)
  {
    if a == [] {
      assert a + b == b;
      if Contains(b, sub) {
        ContainsHead(b, sub);
      }
    } else {
      assert (a + b)[1..] == a[1..] + b;
      ContainsAppend(a[1..], b, sub);
      if |sub| <= |a| {
        assert (a + b)[..|sub|] == a[..|sub|];
      } else if |sub| <= |a + b| {
        assert (a + b)[..|sub|][|a|] == b[0];
        assert (a + b)[..|sub|] != sub;
      }
    }
  }

  /** A text no longer than `sub` holds it only by being it. */
  lemma ShortContains(s: string, sub: string)
    requires |s| <= |sub|
    ensures Contains(s, sub) <==> s == sub
  {
    if Contains(s, sub) && !(|sub| <= |s| && s[..|sub|] == sub) {
      ContainsLong(s[1..], sub);
    }
  }

  /** Cutting at the first `c` of `a + [c] + b` when `a` holds none. */
  lemma CutAt(a: string, b: string, c: char)
    requires c !in a
    ensures Cut(a + [c] + b, c) == Some((a, b))
  {
    FindPast(a, [c] + b, c);
    assert a + [c] + b == a + ([c] + b);
    assert (a + [c] + b)[..|a|] == a && (a + [c] + b)[|a| + 1..] == b;
  }

  /** Appending text without `x` does not make `x` appear. */
  lemma InAppend(a: string, b: string, x: char)
    requires x !in b
    ensures (x in a + b) == (x in a)
  {
    if x in a + b {
      var i :| 0 <= i < |a + b| && (a + b)[i] == x;
      if i >= |a| {
        assert b[i - |a|] == x;
      }
    }
  }

  // ---------------------------------------------------------------------------
  // Properties.

  /** Without `:`, there is no version and the sign is `>=`. */
  lemma NoColon(s: string)
    requires ':' !in s
    ensures ParseText(s).version == None && ParseText(s).versionSign == ">="
  {
  }

  /** Without `/` before the first `:`, the repository is `resources` and the
      resource name is all of that part. */
  lemma NoSlash(s: string, repos: string, rest: string)
    requires (s == repos && ':' !in s) || (s == repos + ":" + rest && ':' !in repos)
    requires '/' !in repos
    ensures ParseText(s).repo == "resources" && ParseText(s).resourceName == repos
  {
    if ':' in s {
      assert s == repos + [':'] + rest;
      CutAt(repos, rest, ':');
    }
  }

  /** Only the first `:` and, before it, the first `/` separate: later ones
      stay in the resource name and the version. */
  lemma FirstSeparators(s: string, repo: string, name: string, version: string)
    requires s == repo + "/" + name + ":" + version && ':' !in repo + "/" + name && '/' !in repo
    ensures ParseText(s).repo == repo && ParseText(s).resourceName == name
    ensures (ParseText(s).versionSign, ParseText(s).version) == SignOf(Some(version))
  {
    assert s == (repo + "/" + name) + [':'] + version;
    CutAt(repo + "/" + name, version, ':');
    assert repo + "/" + name == repo + ['/'] + name;
    CutAt(repo, name, '/');
  }

  /** The three sign rules: a two-character sign when `>=`, `<=` or `==`
      occurs, else a one-character sign when `>` or `<` occurs, else `==` with
      the version untouched. */
  lemma SignRules(v: string)
    ensures Contains(v, ">=") || Contains(v, "<=") || Contains(v, "==") ==>
      |v| >= 2 && SignOf(Some(v)) == (v[..2], Some(v[2..]))
    ensures !(Contains(v, ">=") || Contains(v, "<=") || Contains(v, "==")) && ('>' in v || '<' in v) ==>
      |v| >= 1 && SignOf(Some(v)) == (v[..1], Some(v[1..]))
    ensures !(Contains(v, ">=") || Contains(v, "<=") || Contains(v, "==")) && '>' !in v && '<' !in v ==>
      SignOf(Some(v)) == ("==", Some(v))
  {
    if Contains(v, ">=") {
      ContainsLong(v, ">=");
    } else if Contains(v, "<=") {
      ContainsLong(v, "<=");
    } else if Contains(v, "==") {
      ContainsLong(v, "==");
    }
  }

  /** A two-character sign is found anywhere in the version but cut from its
      start: the version text `1>=` gives the sign `1>` and the version `=`,
      so `pkg:1>=` reads as resource `pkg`, sign `1>`, version `=`. */
  lemma SignByContainment(v: string)
    requires v == "1>="
    ensures SignOf(Some(v)) == ("1>", Some("="))
  {
    assert v[1..] == ">=" && v[..2] == "1>" && v[2..] == "=";
    assert Contains(v[1..], ">=");
    assert Contains(v, ">=");
  }

  /** The signs a rendered spec may carry. */
  predicate IsSign(sign: string) {
    sign == ">=" || sign == "<=" || sign == "==" || sign == ">" || sign == "<"
  }

  /** A parsed spec that renders unambiguously: no separator in the
      repository, no `:` in the resource name, a sign from the list, and no
      sign character in the version; without version the sign is `>=`. */
  predicate WellFormed(p: Parsed) {
    && '/' !in p.repo && ':' !in p.repo && ':' !in p.resourceName
    && (p.version.None? ==> p.versionSign == ">=")
    && (p.version.Some? ==> IsSign(p.versionSign) && '>' !in p.version.value && '<' !in p.version.value && '=' !in p.version.value)
  }

  /** The spec text `repo/resource[:signversion]`. */
  function Render(p: Parsed): string {
    p.repo + "/" + p.resourceName + (if p.version.Some? then ":" + p.versionSign + p.version.value else "")
  }

  /** The sign part of a rendered version is read back as it was. */
  lemma SignBack(sign: string, v: string)
    requires IsSign(sign) && '>' !in v && '<' !in v && '=' !in v
    ensures SignOf(Some(sign + v)) == (sign, Some(v))
  {
    forall sub | sub in {">=", "<=", "=="}
      ensures Contains(sign + v, sub) == Contains(sign, sub)
    {
      ContainsAppend(sign, v, sub);
    }
    InAppend(sign, v, '>');
    InAppend(sign, v, '<');
    forall sub | sub in {">=", "<=", "=="}
      ensures Contains(sign, sub) <==> sign == sub
    {
      ShortContains(sign, sub);
    }
    assert (sign + v)[..|sign|] == sign && (sign + v)[|sign|..] == v;
  }

  /** Parsing the rendering of a well-formed spec gives its parts back. */
  lemma ParseRender(p: Parsed)
    requires WellFormed(p)
    ensures ParseText(Render(p)) == p
  {
    var head := p.repo + "/" + p.resourceName;
    InAppend(p.repo, "/", ':');
    InAppend(p.repo + "/", p.resourceName, ':');
    assert head == p.repo + ['/'] + p.resourceName;
    CutAt(p.repo, p.resourceName, '/');
    if p.version.Some? {
      assert Render(p) == head + [':'] + (p.versionSign + p.version.value);
      CutAt(head, p.versionSign + p.version.value, ':');
      SignBack(p.versionSign, p.version.value);
    } else {
      assert Render(p) == head;
    }
  }
}
