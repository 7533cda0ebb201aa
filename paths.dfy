/** Path aliasing: the `paths` rules and their one-time normalisation
    (src/resolve.js `applyPaths`, `normalizePaths`). */
module Paths {
  import opened Wrappers
  import opened JsString
  import opened Dicts
  import opened Configuration

  /** What one rule `p -> v` makes of `name`: `v` verbatim on an exact match;
      for a value ending in `/` (or empty), the value without its last character
      followed by the rest of the name; otherwise no match. */
  function RuleRewrite(p: string, v: string, name: string): Option<string>
  {
    if name == p then Some(v)
    else if (|name| < |p| || CharAt(name, |p| - 1) == CharAt(p, |p| - 1))
         && (CharAt(v, |v| - 1) == Some('/') || v == "")
         && Substr(name, 0, |p| - 1) == Substr(p, 0, |p| - 1)
    then Some(Substr(v, 0, |v| - 1)
              + (if |name| > |p| then (if v != "" then "/" else "") + SubstrFrom(name, |p|) else ""))
    else None
  }

  /** The rewrite of the first rule, in `for-in` order, that matches. */
  function FirstRewrite(paths: Dict<string>, name: string): Option<string>
  {
    if paths == [] then None
    else match RuleRewrite(paths[0].key, paths[0].value, name)
      case Some(r) => Some(r)
      case None => FirstRewrite(paths[1..], name)
  }

  /** The result of `applyPaths`: the first matching rule, else `paths['']`
      (which is `undefined` when there is no such rule). */
  function AppliedPaths(paths: Dict<string>, name: string): Option<string>
  {
    match FirstRewrite(paths, name)
    case Some(r) => Some(r)
    case None => Get(paths, "")
  }

  /** `applyPaths`: scans the rules in order and returns at the first match. */
  method ApplyPaths(paths: Dict<string>, name: string) returns (r: Option<string>)
    ensures r == AppliedPaths(paths, name)
  {
    var i := 0;
    while i < |paths|
      invariant 0 <= i <= |paths|
      invariant FirstRewrite(paths[i..], name) == FirstRewrite(paths, name)
    {
      var rewrite := RuleRewrite(paths[i].key, paths[i].value, name);
      if rewrite.Some? {
        return rewrite;
      }
      assert paths[i..][1..] == paths[i + 1..];
      i := i + 1;
    }
    r := Get(paths, "");
  }

  /** The first rule that matches decides; an exact key returns its value verbatim. */
  lemma {:induction false} FirstMatchingRuleDecides(paths: Dict<string>, name: string, i: int)
    requires 0 <= i < |paths|
    requires RuleRewrite(paths[i].key, paths[i].value, name).Some?
    requires forall j :: 0 <= j < i ==> RuleRewrite(paths[j].key, paths[j].value, name).None?
    ensures AppliedPaths(paths, name) == RuleRewrite(paths[i].key, paths[i].value, name)
    ensures name == paths[i].key ==> AppliedPaths(paths, name) == Some(paths[i].value)
  {
    FirstMatchingRuleDecidesFirst(paths, name, i);
  }

  lemma {:induction false} FirstMatchingRuleDecidesFirst(paths: Dict<string>, name: string, i: int)
    requires 0 <= i < |paths|
    requires RuleRewrite(paths[i].key, paths[i].value, name).Some?
    requires forall j :: 0 <= j < i ==> RuleRewrite(paths[j].key, paths[j].value, name).None?
    ensures FirstRewrite(paths, name) == RuleRewrite(paths[i].key, paths[i].value, name)
  {
    if i > 0 {
      assert RuleRewrite(paths[0].key, paths[0].value, name).None?;
      FirstMatchingRuleDecidesFirst(paths[1..], name, i - 1);
    }
  }

  /** With no matching rule, the result is the value of the empty key, if any. */
  lemma {:induction false} NoMatchingRule(paths: Dict<string>, name: string)
    requires forall j :: 0 <= j < |paths| ==> RuleRewrite(paths[j].key, paths[j].value, name).None?
    ensures AppliedPaths(paths, name) == Get(paths, "")
    ensures FirstRewrite(paths, name) == None
  {
    if paths != [] {
      assert RuleRewrite(paths[0].key, paths[0].value, name).None?;
      NoMatchingRule(paths[1..], name);
    }
  }

  /** Which names a rule with a non-empty key and a directory-like value
      (ending in `/`, or empty) matches: names that start with the key, and the
      key without its last character. */
  lemma DirectoryRuleMatches(p: string, v: string, name: string)
    requires |p| >= 1
    requires EndsWith(v, "/") || v == ""
    ensures RuleRewrite(p, v, name).Some?
            <==> (StartsWith(name, p) || name == p[..|p| - 1])
  {
    var q := p[..|p| - 1];
    assert CharAt(v, |v| - 1) == Some('/') || v == "" by {
      if v != "" { assert v[|v| - 1..] == "/"; }
    }
    SubstrPrefix(name, |p| - 1);
    SubstrPrefix(p, |p| - 1);
    if StartsWith(name, p) && name != p {
      assert name[..|p| - 1] == q;
      assert name[|p| - 1] == p[|p| - 1];
    }
    if RuleRewrite(p, v, name).Some? && name != p {
      assert Substr(name, 0, |p| - 1) == q;
      if |name| < |p| {
        assert name == q;
      } else {
        assert name[..|p|] == q + [p[|p| - 1]];
        assert p == q + [p[|p| - 1]];
      }
    }
  }

  /** A value that is neither directory-like nor empty only matches its exact key. */
  lemma FileRuleMatchesExactly(p: string, v: string, name: string)
    requires v != "" && v[|v| - 1] != '/'
    ensures RuleRewrite(p, v, name).Some? <==> name == p
  {
  }

  /** Directory rule rewriting: a key and value both ending in `/` replace the
      key by the value, keeping the rest of the name. */
  lemma DirectoryRuleRewrite(p: string, v: string, name: string)
    requires EndsWith(p, "/") && EndsWith(v, "/")
    requires StartsWith(name, p)
    ensures RuleRewrite(p, v, name) == Some(v + name[|p|..])
  {
    if name != p {
      assert |name| > |p|;
      assert name[|p| - 1] == p[|p| - 1];
      assert v[|v| - 1..] == "/";
      SubstrPrefix(v, |v| - 1);
      SubstrPrefix(name, |p| - 1);
      SubstrPrefix(p, |p| - 1);
      SubstrFromTail(name, |p|);
      assert name[..|p| - 1] == p[..|p| - 1];
      assert RuleRewrite(p, v, name) == Some(v[..|v| - 1] + ("/" + name[|p|..]));
      assert v[..|v| - 1] + "/" == v;
      assert v[..|v| - 1] + ("/" + name[|p|..]) == (v[..|v| - 1] + "/") + name[|p|..];
    } else {
      assert v + name[|p|..] == v;
    }
  }

  /** The key without its trailing `/` maps to the value without its trailing `/`. */
  lemma DirectoryRuleBareName(p: string, v: string)
    requires EndsWith(p, "/") && (EndsWith(v, "/") || v == "")
    ensures RuleRewrite(p, v, p[..|p| - 1]) == Some(if v == "" then "" else v[..|v| - 1])
  {
    var name := p[..|p| - 1];
    SubstrPrefix(name, |p| - 1);
    SubstrPrefix(p, |p| - 1);
    if v != "" {
      assert v[|v| - 1..] == "/";
      SubstrPrefix(v, |v| - 1);
    }
    assert Substr(v, 0, |v| - 1) + "" == Substr(v, 0, |v| - 1);
    assert RuleRewrite(p, v, name) == Some(Substr(v, 0, |v| - 1) + "");
  }

  /** An empty key with a directory value prefixes every name. */
  lemma EmptyKeyPrefixesEveryName(v: string, name: string)
    requires EndsWith(v, "/")
    ensures RuleRewrite("", v, name) == Some(v + name)
  {
    if name != "" {
      assert v[|v| - 1..] == "/";
      assert CharAt(v, |v| - 1) == Some('/');
      SubstrPrefix(v, |v| - 1);
      assert v[..|v| - 1] + "/" == v;
      assert SubstrFrom(name, 0) == name;
      assert RuleRewrite("", v, name) == Some(v[..|v| - 1] + ("/" + name));
      assert v[..|v| - 1] + ("/" + name) == (v[..|v| - 1] + "/") + name;
    } else {
      assert v + name == v;
    }
  }

  /** The value a rule gets when the paths are locked: resolved against the
      document base, or else as `./value` against `baseURL`. */
  function NormalizedPath(host: Host, baseURL: string, v: string): (r: string)
    requires host.Valid()
  {
    var first := host.resolveUrl(v, host.baseURI);
    if Truthy(first) then first.value
    else
      assert StartsWith("./" + v, "./");
      host.resolveUrl("./" + v, baseURL).value
  }

  /** Every rule's value normalised, keys and their order unchanged. */
  function NormalizedPaths(host: Host, baseURL: string, paths: Dict<string>): (r: Dict<string>)
    requires host.Valid()
    ensures Keys(r) == Keys(paths)
  {
    seq(|paths|, i requires 0 <= i < |paths| =>
      Entry(paths[i].key, NormalizedPath(host, baseURL, paths[i].value)))
  }

  /** `normalizePaths`: rewrites every value of `config.paths` in place, then locks them. */
  method NormalizePaths(config: Config, host: Host)
    requires config.Valid() && host.Valid()
    modifies config`paths, config`pathsLocked
    ensures config.Valid() && config.pathsLocked
    ensures config.paths == NormalizedPaths(host, config.baseURL, old(config.paths))
  {
    ghost var before := config.paths;
    var i := 0;
    while i < |config.paths|
      invariant 0 <= i <= |config.paths| == |before|
      invariant Keys(config.paths) == Keys(before)
      invariant forall j :: 0 <= j < i ==>
        config.paths[j] == NormalizedPaths(host, config.baseURL, before)[j]
      invariant forall j :: i <= j < |before| ==> config.paths[j] == before[j]
    {
      var p := config.paths[i].key;
      config.paths := config.paths[i := Entry(p, NormalizedPath(host, config.baseURL, config.paths[i].value))];
      i := i + 1;
    }
    config.pathsLocked := true;
    assert Keys(config.paths) == Keys(before);
    assert DistinctKeys(config.paths) by {
      forall a, b | 0 <= a < b < |config.paths|
        ensures config.paths[a].key != config.paths[b].key
      {
        assert Keys(config.paths)[a] == Keys(before)[a];
        assert Keys(config.paths)[b] == Keys(before)[b];
      }
    }
  }
}
