/** `packageConfigPaths`: the patterns naming package configuration documents,
    and the scan that finds which of them covers a normalized name. */
module ConfigPaths {
  import opened Wrappers
  import opened JsString

  /** A compiled pattern: the pattern text before `length` is matched against
      the start of a name (`*` standing for one non-empty, `/`-free run), and
      must be followed by `/` or the end of the name. */
  datatype ConfigPathPattern = ConfigPathPattern(length: nat, prefix: string, wildcard: bool)

  /** `createPkgConfigPathObj`: the matched part is the shortest one that
      covers every `*` and leaves no `/` after it, the larger of one past the
      last `*` and the position of the last `/`. */
  function CreatePkgConfigPathObj(path: string): (r: ConfigPathPattern)
    ensures r.length <= |path| && r.prefix == path[..r.length]
    ensures r.wildcard <==> '*' in path
    ensures forall k :: r.length <= k < |path| ==> path[k] != '*'
    ensures forall k :: r.length < k < |path| ==> path[k] != '/'
    ensures r.length == 0 || path[r.length - 1] == '*' || (r.length < |path| && path[r.length] == '/')
  {
    var lastWildcard := LastIndexOf(path, '*');
    var length := Max(lastWildcard + 1, LastIndexOf(path, '/'));
    ConfigPathPattern(length, Substr(path, 0, length), lastWildcard != -1)
  }

  /** The regular expression of a compiled prefix, anchored at both ends: other
      characters stand for themselves, each `*` for one or more characters other than `/`. */
  predicate PatternMatch(pat: string, t: string)
    decreases |pat|
  {
    if pat == [] then t == []
    else if pat[0] == '*' then
      exists k :: 1 <= k <= |t| && '/' !in t[..k] && PatternMatch(pat[1..], t[k..])
    else t != [] && t[0] == pat[0] && PatternMatch(pat[1..], t[1..])
  }

  /** A match spans exactly the separators the pattern spells out. */
  lemma {:induction false} PatternMatchSeparators(pat: string, t: string)
    requires PatternMatch(pat, t)
    ensures multiset(t)['/'] == multiset(pat)['/']
    ensures |t| >= |pat|
    decreases |pat|
  {
    if pat != [] {
      assert pat == [pat[0]] + pat[1..];
      if pat[0] == '*' {
        var k :| 1 <= k <= |t| && '/' !in t[..k] && PatternMatch(pat[1..], t[k..]);
        PatternMatchSeparators(pat[1..], t[k..]);
        assert t == t[..k] + t[k..];
        assert multiset(t[..k])['/'] == 0;
      } else {
        PatternMatchSeparators(pat[1..], t[1..]);
        assert t == [t[0]] + t[1..];
      }
    }
  }

  /** Without `*` a pattern matches only its own text. */
  lemma {:induction false} LiteralPatternMatch(pat: string, t: string)
    requires '*' !in pat
    ensures PatternMatch(pat, t) <==> t == pat
    decreases |pat|
  {
    if pat != [] {
      assert '*' !in pat[1..] by { assert forall c :: c in pat[1..] ==> c in pat; }
      if t != [] {
        LiteralPatternMatch(pat[1..], t[1..]);
        if t[0] == pat[0] && t[1..] == pat[1..] {
          assert t == [t[0]] + t[1..] && pat == [pat[0]] + pat[1..];
        }
      }
    }
  }

  /** The match ends where the name does or at a separator. */
  predicate Boundary(s: string, e: int)
  {
    e == |s| || (0 <= e < |s| && s[e] == '/')
  }

  /** The first end position from `e` on at which the compiled prefix matches. */
  function MatchFrom(prefix: string, s: string, e: nat): (r: Option<string>)
    ensures r.Some? ==> r.value <= s && Boundary(s, |r.value|) && PatternMatch(prefix, r.value)
    ensures r.Some? ==> forall e' :: e <= e' < |r.value| && Boundary(s, e') ==> !PatternMatch(prefix, s[..e'])
    ensures r.None? ==> forall e' :: e <= e' <= |s| && Boundary(s, e') ==> !PatternMatch(prefix, s[..e'])
    decreases |s| + 1 - e
  {
    if e > |s| then None
    else if Boundary(s, e) && PatternMatch(prefix, s[..e]) then Some(s[..e])
    else MatchFrom(prefix, s, e + 1)
  }

  /** `normalized.match(p.regEx)`, reduced to its first group. */
  function RegexMatch(prefix: string, s: string): (r: Option<string>)
  {
    MatchFrom(prefix, s, 0)
  }

  /** At most one prefix of a name ending on a boundary matches a pattern. */
  lemma MatchIsUnique(prefix: string, s: string, m1: string, m2: string)
    requires m1 <= s && Boundary(s, |m1|) && PatternMatch(prefix, m1)
    requires m2 <= s && Boundary(s, |m2|) && PatternMatch(prefix, m2)
    ensures m1 == m2
  {
    PatternMatchSeparators(prefix, m1);
    PatternMatchSeparators(prefix, m2);
    if |m1| < |m2| {
      MoreSeparatorsPastBoundary(m1, m2);
      assert false;
    } else if |m2| < |m1| {
      MoreSeparatorsPastBoundary(m2, m1);
      assert false;
    }
  }

  /** A longer prefix reaching past a separator boundary has more separators. */
  lemma MoreSeparatorsPastBoundary(m1: string, m2: string)
    requires m1 <= m2 && |m1| < |m2| && m2[|m1|] == '/'
    ensures multiset(m1)['/'] < multiset(m2)['/']
  {
    assert m2 == m1 + m2[|m1|..];
    assert m2[|m1|..][0] == '/';
    assert multiset(m2) == multiset(m1) + multiset(m2[|m1|..]);
  }

  /** The regular expression finds a match exactly when some boundary-ending
      prefix of the name matches the pattern, and that prefix is its group. */
  lemma RegexMatchMeans(prefix: string, s: string, m: string)
    ensures RegexMatch(prefix, s) == Some(m)
            <==> m <= s && Boundary(s, |m|) && PatternMatch(prefix, m)
  {
    var r := RegexMatch(prefix, s);
    if m <= s && Boundary(s, |m|) && PatternMatch(prefix, m) {
      assert s[..|m|] == m;
      MatchIsUnique(prefix, s, r.value, m);
    }
  }

  /** What one pattern contributes: `continue` when the name is shorter than
      the compiled length, otherwise the regular-expression match. */
  function MatchOf(path: string, normalized: string): Option<string>
  {
    var p := CreatePkgConfigPathObj(path);
    if |normalized| < p.length then None else RegexMatch(p.prefix, normalized)
  }

  /** The length guard only saves work: it never hides a match. */
  lemma LengthGuardIsShortcut(path: string, normalized: string)
    ensures MatchOf(path, normalized)
            == RegexMatch(CreatePkgConfigPathObj(path).prefix, normalized)
  {
    var p := CreatePkgConfigPathObj(path);
    var r := RegexMatch(p.prefix, normalized);
    if |normalized| < p.length && r.Some? {
      PatternMatchSeparators(p.prefix, r.value);
    }
  }

  /** The loop variables of `getPackageConfigMatch`: `pkgName`, `exactMatch`, `configPath`. */
  datatype ScanState = ScanState(pkgName: Option<string>, exactMatch: bool, configPath: string)

  /** One iteration: a match replaces the current one when there is none (or
      it is ""), or when it is longer, unless an exact match would give way to a wildcard. */
  function ScanStep(st: ScanState, path: string, normalized: string): ScanState
  {
    var p := CreatePkgConfigPathObj(path);
    match MatchOf(path, normalized)
    case None => st
    case Some(m) =>
      if !Truthy(st.pkgName) || (!(st.exactMatch && p.wildcard) && |st.pkgName.value| < |m|)
      then ScanState(Some(m), !p.wildcard, m + SubstrFrom(path, p.length))
      else st
  }

  /** The loop variables after scanning `paths` in order. */
  function ConfigScan(paths: seq<string>, normalized: string): ScanState
  {
    if paths == [] then ScanState(None, false, "")
    else ScanStep(ConfigScan(paths[..|paths| - 1], normalized), paths[|paths| - 1], normalized)
  }

  /** The owning package and the path of its configuration document. */
  datatype PackageConfigMatch = PackageConfigMatch(packageName: string, configPath: string)

  function PackageConfigMatchOf(paths: seq<string>, normalized: string): Option<PackageConfigMatch>
  {
    var st := ConfigScan(paths, normalized);
    if !Truthy(st.pkgName) then None else Some(PackageConfigMatch(st.pkgName.value, st.configPath))
  }

  /** `getPackageConfigMatch`: one pass over the configured patterns. */
  method GetPackageConfigMatch(packageConfigPaths: seq<string>, normalized: string)
    returns (r: Option<PackageConfigMatch>)
    ensures r == PackageConfigMatchOf(packageConfigPaths, normalized)
  {
    var pkgName: Option<string> := None;
    var exactMatch := false;
    var configPath := "";
    var i := 0;
    while i < |packageConfigPaths|
      invariant 0 <= i <= |packageConfigPaths|
      invariant ScanState(pkgName, exactMatch, configPath)
                == ConfigScan(packageConfigPaths[..i], normalized)
    {
      var packageConfigPath := packageConfigPaths[i];
      ghost var next := ScanStep(ScanState(pkgName, exactMatch, configPath), packageConfigPath, normalized);
      ScanPrefix(packageConfigPaths, i, normalized);
      var p := CreatePkgConfigPathObj(packageConfigPath);
      if |normalized| >= p.length {
        var found := RegexMatch(p.prefix, normalized);
        assert found == MatchOf(packageConfigPath, normalized);
        if found.Some? && (!Truthy(pkgName)
                           || (!(exactMatch && p.wildcard) && |pkgName.value| < |found.value|)) {
          pkgName := found;
          exactMatch := !p.wildcard;
          configPath := found.value + SubstrFrom(packageConfigPath, p.length);
        }
      }
      assert ScanState(pkgName, exactMatch, configPath) == next;
      i := i + 1;
    }
    assert packageConfigPaths[..i] == packageConfigPaths;
    if !Truthy(pkgName) {
      return None;
    }
    return Some(PackageConfigMatch(pkgName.value, configPath));
  }

  /** The scan holds a non-empty match from a pattern without `*`. */
  predicate HoldsExact(st: ScanState)
  {
    st.exactMatch && Truthy(st.pkgName)
  }

  /** A step never shortens a non-empty match, and keeps an exact one exact. */
  lemma ScanStepGrows(st: ScanState, path: string, normalized: string)
    requires Truthy(st.pkgName)
    ensures var next := ScanStep(st, path, normalized);
      Truthy(next.pkgName) && |st.pkgName.value| <= |next.pkgName.value|
      && (HoldsExact(st) ==> HoldsExact(next))
  {
  }

  /** Every pattern's match is no longer than the match held in `st`, unless
      that pattern is a wildcard reached while the scan already held an exact
      match; with no match held, every match found was "". */
  predicate Dominates(paths: seq<string>, normalized: string, st: ScanState)
  {
    forall j :: 0 <= j < |paths| && MatchOf(paths[j], normalized).Some? ==>
      if Truthy(st.pkgName)
      then |MatchOf(paths[j], normalized).value| <= |st.pkgName.value|
           || (CreatePkgConfigPathObj(paths[j]).wildcard && HoldsExact(ConfigScan(paths[..j], normalized)))
      else MatchOf(paths[j], normalized).value == ""
  }

  /** The scan's match dominates every pattern scanned. */
  lemma {:induction false} ScanDominates(paths: seq<string>, normalized: string)
    ensures Dominates(paths, normalized, ConfigScan(paths, normalized))
  {
    if paths != [] {
      var front := paths[..|paths| - 1];
      ScanDominates(front, normalized);
      DominatesStep(front, paths[|paths| - 1], normalized);
      assert front + [paths[|paths| - 1]] == paths;
    }
  }

  /** One more step keeps the match dominant. */
  lemma DominatesStep(front: seq<string>, path: string, normalized: string)
    requires Dominates(front, normalized, ConfigScan(front, normalized))
    ensures Dominates(front + [path], normalized, ConfigScan(front + [path], normalized))
  {
    var paths := front + [path];
    var st0 := ConfigScan(front, normalized);
    ScanAppend(front, path, normalized);
    var st := ConfigScan(paths, normalized);
    if Truthy(st0.pkgName) {
      ScanStepGrows(st0, path, normalized);
    }
    forall j | 0 <= j < |front| && MatchOf(paths[j], normalized).Some?
      ensures if Truthy(st.pkgName)
              then |MatchOf(paths[j], normalized).value| <= |st.pkgName.value|
                   || (CreatePkgConfigPathObj(paths[j]).wildcard && HoldsExact(ConfigScan(paths[..j], normalized)))
              else MatchOf(paths[j], normalized).value == ""
    {
      assert paths[j] == front[j] && paths[..j] == front[..j];
    }
    assert paths[..|front|] == front;
  }

  /** Pattern `i` is where the scan state `st` was last set: the state holds
      its match, `exactMatch` says whether the pattern has no `*`, the
      document path is the match followed by the pattern's tail, and every
      earlier pattern matched something strictly shorter or was a wildcard
      reached while an exact match was held. */
  predicate ChosenAt(paths: seq<string>, normalized: string, st: ScanState, i: int)
    requires 0 <= i < |paths|
  {
    var p := CreatePkgConfigPathObj(paths[i]);
    MatchOf(paths[i], normalized) == st.pkgName
    && st.exactMatch == !p.wildcard
    && st.pkgName.Some?
    && st.configPath == st.pkgName.value + SubstrFrom(paths[i], p.length)
    && forall j :: 0 <= j < i && MatchOf(paths[j], normalized).Some? ==>
         |MatchOf(paths[j], normalized).value| < |st.pkgName.value|
         || (CreatePkgConfigPathObj(paths[j]).wildcard && HoldsExact(ConfigScan(paths[..j], normalized)))
  }

  lemma ChosenAtGrows(front: seq<string>, paths: seq<string>, normalized: string, st: ScanState, i: int)
    requires front <= paths && 0 <= i < |front| && ChosenAt(front, normalized, st, i)
    ensures ChosenAt(paths, normalized, st, i)
  {
    assert forall j :: 0 <= j <= i ==> front[j] == paths[j] && front[..j] == paths[..j];
  }

  /** When the last pattern replaces a non-empty match, it is the chosen one. */
  lemma ChosenAtLast(front: seq<string>, path: string, normalized: string)
    requires ScanStep(ConfigScan(front, normalized), path, normalized) != ConfigScan(front, normalized)
    requires Truthy(ScanStep(ConfigScan(front, normalized), path, normalized).pkgName)
    ensures ChosenAt(front + [path], normalized, ScanStep(ConfigScan(front, normalized), path, normalized), |front|)
  {
    var paths := front + [path];
    ScanDominates(front, normalized);
    assert forall j :: 0 <= j < |front| ==> front[j] == paths[j] && front[..j] == paths[..j];
  }

  /** A non-empty current match was set by some pattern. */
  lemma {:induction false} ScanChosen(paths: seq<string>, normalized: string)
    requires Truthy(ConfigScan(paths, normalized).pkgName)
    ensures exists i :: 0 <= i < |paths| && ChosenAt(paths, normalized, ConfigScan(paths, normalized), i)
  {
    var front := paths[..|paths| - 1];
    assert paths == front + [paths[|paths| - 1]];
    var st0 := ConfigScan(front, normalized);
    var st := ConfigScan(paths, normalized);
    if st == st0 {
      ScanChosen(front, normalized);
      var i :| 0 <= i < |front| && ChosenAt(front, normalized, st0, i);
      ChosenAtGrows(front, paths, normalized, st0, i);
    } else {
      ChosenAtLast(front, paths[|paths| - 1], normalized);
    }
  }

  /** Pattern `i` gives the result `r`: `r` is its non-empty match followed
      by its tail; no pattern matched more, and no earlier pattern as much,
      unless that pattern is a wildcard reached while an exact match was
      held; and once the scan has held an exact match, pattern `i` is exact
      and its match at least as long (a wildcard never displaces an exact
      match). `MostSpecificDetermines` shows that these conditions single
      out the result. */
  predicate MostSpecificAt(paths: seq<string>, normalized: string, r: PackageConfigMatch, i: int)
    requires 0 <= i < |paths|
  {
    var chosenExact := !CreatePkgConfigPathObj(paths[i]).wildcard;
    MatchOf(paths[i], normalized) == Some(r.packageName)
    && r.packageName != ""
    && r.configPath == r.packageName + SubstrFrom(paths[i], CreatePkgConfigPathObj(paths[i]).length)
    && (forall j :: 0 <= j < |paths| && MatchOf(paths[j], normalized).Some? ==>
          |MatchOf(paths[j], normalized).value| <= |r.packageName|
          || (CreatePkgConfigPathObj(paths[j]).wildcard && HoldsExact(ConfigScan(paths[..j], normalized))))
    && (forall j :: 0 <= j < i && MatchOf(paths[j], normalized).Some? ==>
          |MatchOf(paths[j], normalized).value| < |r.packageName|
          || (CreatePkgConfigPathObj(paths[j]).wildcard && HoldsExact(ConfigScan(paths[..j], normalized))))
    && (forall k :: 0 <= k <= |paths| && HoldsExact(ConfigScan(paths[..k], normalized)) ==>
          chosenExact && |ConfigScan(paths[..k], normalized).pkgName.value| <= |r.packageName|)
  }

  /** What `getPackageConfigMatch` returns: nothing exactly when no pattern
      yields a non-empty match; otherwise the package name is the match of
      some pattern, the document path is that match followed by the pattern's
      tail, and the pattern that gives it is the most specific one in the
      sense of `MostSpecificAt`. */
  lemma PackageConfigMatchIsMostSpecific(paths: seq<string>, normalized: string)
    ensures PackageConfigMatchOf(paths, normalized).None?
            <==> forall j :: 0 <= j < |paths| ==> !Truthy(MatchOf(paths[j], normalized))
    ensures PackageConfigMatchOf(paths, normalized).Some? ==>
      var r := PackageConfigMatchOf(paths, normalized).value;
      exists i :: 0 <= i < |paths| && MostSpecificAt(paths, normalized, r, i)
  {
    NoConfigMatch(paths, normalized);
    if PackageConfigMatchOf(paths, normalized).Some? {
      ConfigMatchChosen(paths, normalized);
    }
  }

  /** `MostSpecificAt` determines the result: any match it accepts, at any
      pattern, is the one `getPackageConfigMatch` returns. */
  lemma MostSpecificDetermines(paths: seq<string>, normalized: string, r: PackageConfigMatch, i: int)
    requires 0 <= i < |paths| && MostSpecificAt(paths, normalized, r, i)
    ensures PackageConfigMatchOf(paths, normalized) == Some(r)
  {
    NoConfigMatch(paths, normalized);
    assert Truthy(MatchOf(paths[i], normalized));
    ConfigMatchChosen(paths, normalized);
    var s := PackageConfigMatchOf(paths, normalized).value;
    var c :| 0 <= c < |paths| && MostSpecificAt(paths, normalized, s, c);
    SameChosenPattern(paths, normalized, r, i, s, c);
  }

  /** Two results accepted by `MostSpecificAt` come from the same pattern:
      whichever comes first would otherwise have to be a wildcard reached
      while an exact match was held, and an exact match once held forces an
      exact result. */
  lemma SameChosenPattern(paths: seq<string>, normalized: string,
                          r: PackageConfigMatch, i: int, s: PackageConfigMatch, c: int)
    requires 0 <= i < |paths| && MostSpecificAt(paths, normalized, r, i)
    requires 0 <= c < |paths| && MostSpecificAt(paths, normalized, s, c)
    ensures r == s
  {
    if i < c {
      assert false;
    } else if c < i {
      assert false;
    }
  }

  lemma NoConfigMatch(paths: seq<string>, normalized: string)
    ensures PackageConfigMatchOf(paths, normalized).None?
            <==> forall j :: 0 <= j < |paths| ==> !Truthy(MatchOf(paths[j], normalized))
  {
    ScanDominates(paths, normalized);
    if Truthy(ConfigScan(paths, normalized).pkgName) {
      ScanChosen(paths, normalized);
    }
  }

  lemma ConfigMatchChosen(paths: seq<string>, normalized: string)
    requires PackageConfigMatchOf(paths, normalized).Some?
    ensures var r := PackageConfigMatchOf(paths, normalized).value;
      exists i :: 0 <= i < |paths| && MostSpecificAt(paths, normalized, r, i)
  {
    ScanDominates(paths, normalized);
    ScanChosen(paths, normalized);
    var st := ConfigScan(paths, normalized);
    forall k | 0 <= k <= |paths| && HoldsExact(ConfigScan(paths[..k], normalized))
      ensures st.exactMatch && |ConfigScan(paths[..k], normalized).pkgName.value| <= |st.pkgName.value|
    {
      ExactNeverDisplaced(paths, k, normalized);
    }
    var i :| 0 <= i < |paths| && ChosenAt(paths, normalized, st, i);
    assert MostSpecificAt(paths, normalized, PackageConfigMatchOf(paths, normalized).value, i);
  }

  /** Once the scan holds an exact match, every later state holds an exact
      match at least as long: a wildcard never displaces an exact match. */
  lemma {:induction false} ExactNeverDisplaced(paths: seq<string>, k: nat, normalized: string)
    requires k <= |paths|
    requires ConfigScan(paths[..k], normalized).exactMatch && Truthy(ConfigScan(paths[..k], normalized).pkgName)
    ensures var st := ConfigScan(paths, normalized);
      st.exactMatch && Truthy(st.pkgName)
      && |ConfigScan(paths[..k], normalized).pkgName.value| <= |st.pkgName.value|
    decreases |paths| - k
  {
    if k == |paths| {
      assert paths[..k] == paths;
    } else {
      ScanPrefix(paths, k, normalized);
      ExactNeverDisplaced(paths, k + 1, normalized);
    }
  }


  /** A pattern without `*` matches only the directory it names, and its
      document path is the pattern itself. */
  lemma ExactPatternMatch(path: string, normalized: string)
    requires '*' !in path && MatchOf(path, normalized).Some?
    ensures var p := CreatePkgConfigPathObj(path);
      MatchOf(path, normalized) == Some(path[..p.length])
      && MatchOf(path, normalized).value + SubstrFrom(path, p.length) == path
  {
    var p := CreatePkgConfigPathObj(path);
    assert '*' !in p.prefix by { assert forall c :: c in p.prefix ==> c in path; }
    LiteralPatternMatch(p.prefix, MatchOf(path, normalized).value);
    SubstrFromTail(path, p.length);
    assert path == path[..p.length] + path[p.length..];
  }

  /** An exact pattern holds its match against later wildcards only if it was
      the one chosen. Patterns `w` (wildcard), `e` (exact) and `d` (wildcard)
      match prefixes of a name, `w` and `e` equally long, `d` longer: scanning
      `e, d` keeps `e`'s match, but after `w` the match of `e` is not taken and
      `d`'s wins. */
  lemma ExactBlocksOnlyWhenChosen(w: string, e: string, d: string, normalized: string,
                                  mw: string, me: string, md: string)
    requires MatchOf(w, normalized) == Some(mw) && CreatePkgConfigPathObj(w).wildcard
    requires MatchOf(e, normalized) == Some(me) && !CreatePkgConfigPathObj(e).wildcard
    requires MatchOf(d, normalized) == Some(md) && CreatePkgConfigPathObj(d).wildcard
    requires mw != "" && |mw| == |me| < |md|
    ensures ConfigScan([e, d], normalized)
            == ScanState(Some(me), true, me + SubstrFrom(e, CreatePkgConfigPathObj(e).length))
    ensures ConfigScan([w, e, d], normalized)
            == ScanState(Some(md), false, md + SubstrFrom(d, CreatePkgConfigPathObj(d).length))
  {
    var fromE := ScanState(Some(me), true, me + SubstrFrom(e, CreatePkgConfigPathObj(e).length));
    var fromW := ScanState(Some(mw), false, mw + SubstrFrom(w, CreatePkgConfigPathObj(w).length));
    FirstStep(e, normalized, me);
    ScanAppend([e], d, normalized);
    assert [e] + [d] == [e, d];
    assert ScanStep(fromE, d, normalized) == fromE;
    FirstStep(w, normalized, mw);
    ScanAppend([w], e, normalized);
    assert [w] + [e] == [w, e];
    assert ScanStep(fromW, e, normalized) == fromW;
    ScanAppend([w, e], d, normalized);
    assert [w, e] + [d] == [w, e, d];
  }

  /** The first matching pattern is always taken. */
  lemma FirstStep(path: string, normalized: string, m: string)
    requires MatchOf(path, normalized) == Some(m)
    ensures var p := CreatePkgConfigPathObj(path);
      ConfigScan([path], normalized) == ScanState(Some(m), !p.wildcard, m + SubstrFrom(path, p.length))
  {
    ScanAppend([], path, normalized);
    assert [] + [path] == [path];
  }

  /** An instance: on `x/y`, the patterns `x/c` then `x/STAR/c` give the
      package `x`; putting `STAR/c` first gives `x/y` (STAR standing for the
      wildcard character). */
  lemma ExactMatchDependsOnOrder(w: string, e: string, d: string, normalized: string)
    requires w == "*/c" && e == "x/c" && d == "x/*/c" && normalized == "x/y"
    ensures PackageConfigMatchOf([e, d], normalized) == Some(PackageConfigMatch("x", "x/c"))
    ensures PackageConfigMatchOf([w, e, d], normalized) == Some(PackageConfigMatch("x/y", "x/y/c"))
  {
    ExampleMatches(w, e, d, normalized);
    ExactBlocksOnlyWhenChosen(w, e, d, normalized, "x", "x", "x/y");
  }

  /** With a deeper wildcard `d` scanned first, the shorter match of an exact
      pattern `e` cannot take over, and `MostSpecificAt` refuses `e`'s match
      as an answer. */
  lemma DeeperWildcardFirst(e: string, d: string, normalized: string, me: string, md: string)
    requires MatchOf(e, normalized) == Some(me) && !CreatePkgConfigPathObj(e).wildcard
    requires MatchOf(d, normalized) == Some(md) && CreatePkgConfigPathObj(d).wildcard
    requires me != "" && |me| < |md|
    ensures PackageConfigMatchOf([d, e], normalized)
            == Some(PackageConfigMatch(md, md + SubstrFrom(d, CreatePkgConfigPathObj(d).length)))
    ensures !MostSpecificAt([d, e], normalized,
                            PackageConfigMatch(me, me + SubstrFrom(e, CreatePkgConfigPathObj(e).length)), 1)
  {
    var fromD := ScanState(Some(md), false, md + SubstrFrom(d, CreatePkgConfigPathObj(d).length));
    FirstStep(d, normalized, md);
    ScanAppend([d], e, normalized);
    assert [d] + [e] == [d, e];
    assert ScanStep(fromD, e, normalized) == fromD;
    var exactAnswer := PackageConfigMatch(me, me + SubstrFrom(e, CreatePkgConfigPathObj(e).length));
    if MostSpecificAt([d, e], normalized, exactAnswer, 1) {
      MostSpecificDetermines([d, e], normalized, exactAnswer, 1);
    }
  }

  /** The instance (STAR standing for the wildcard character): on `x/y`,
      `x/STAR/c` then `x/c` gives `x/y`, and the answer `x` with `x/c` is
      refused. */
  lemma WildcardFirstKeepsDeeperMatch(e: string, d: string, normalized: string)
    requires e == "x/c" && d == "x/*/c" && normalized == "x/y"
    ensures PackageConfigMatchOf([d, e], normalized) == Some(PackageConfigMatch("x/y", "x/y/c"))
    ensures !MostSpecificAt([d, e], normalized, PackageConfigMatch("x", "x/c"), 1)
  {
    ExampleMatches("*/c", e, d, normalized);
    DeeperWildcardFirst(e, d, normalized, "x", "x/y");
  }

  /** Scanning one more pattern is one more step. */
  lemma ScanAppend(front: seq<string>, path: string, normalized: string)
    ensures ConfigScan(front + [path], normalized) == ScanStep(ConfigScan(front, normalized), path, normalized)
  {
    assert (front + [path])[..|front|] == front;
  }

  lemma ScanPrefix(paths: seq<string>, i: nat, normalized: string)
    requires i < |paths|
    ensures ConfigScan(paths[..i + 1], normalized) == ScanStep(ConfigScan(paths[..i], normalized), paths[i], normalized)
  {
    var next := paths[..i + 1];
    assert next[..|next| - 1] == paths[..i];
    assert next[|next| - 1] == paths[i];
  }

  /** The compiled patterns of the example and what they match in `x/y`. */
  lemma ExampleMatches(w: string, e: string, d: string, normalized: string)
    requires w == "*/c" && e == "x/c" && d == "x/*/c" && normalized == "x/y"
    ensures MatchOf(w, normalized) == Some("x") && CreatePkgConfigPathObj(w).wildcard
    ensures MatchOf(e, normalized) == Some("x") && !CreatePkgConfigPathObj(e).wildcard
    ensures MatchOf(d, normalized) == Some("x/y") && CreatePkgConfigPathObj(d).wildcard
    ensures "x" + SubstrFrom(e, CreatePkgConfigPathObj(e).length) == "x/c"
    ensures "x/y" + SubstrFrom(d, CreatePkgConfigPathObj(d).length) == "x/y/c"
  {
    ExampleCompiled();
    ExampleRegexMatch("*", "x");
    ExampleRegexMatch("x", "x");
    ExampleRegexMatch("x/*", "x/y");
    GuardPassed(w, normalized, "x");
    GuardPassed(e, normalized, "x");
    GuardPassed(d, normalized, "x/y");
    ExampleSuffixes();
  }

  lemma GuardPassed(path: string, normalized: string, m: string)
    requires |normalized| >= CreatePkgConfigPathObj(path).length
    requires RegexMatch(CreatePkgConfigPathObj(path).prefix, normalized) == Some(m)
    ensures MatchOf(path, normalized) == Some(m)
  {
  }

  lemma ExampleSuffixes()
    ensures "x" + SubstrFrom("x/c", 1) == "x/c"
    ensures "x/y" + SubstrFrom("x/*/c", 3) == "x/y/c"
  {
    assert SubstrFrom("x/c", 1) == "/c";
    assert SubstrFrom("x/*/c", 3) == "/c";
  }

  lemma ExampleRegexMatch(prefix: string, m: string)
    requires (prefix, m) in {("*", "x"), ("x", "x"), ("x/*", "x/y")}
    ensures RegexMatch(prefix, "x/y") == Some(m)
  {
    WildcardSegmentMatches();
    assert PatternMatch("x", "x") by {
      assert "x"[1..] == [];
    }
    assert m <= "x/y" && Boundary("x/y", |m|);
    RegexMatchMeans(prefix, "x/y", m);
  }

  lemma WildcardSegmentMatches()
    ensures PatternMatch("*", "x") && PatternMatch("*", "y")
    ensures PatternMatch("x/*", "x/y")
  {
    assert "x"[..1] == "x" && "x"[1..] == [];
    assert "y"[..1] == "y" && "y"[1..] == [];
    assert PatternMatch("*", "y");
    assert "x/*"[1..] == "/*" && "/*"[1..] == "*";
    assert "x/y"[1..] == "/y" && "/y"[1..] == "y";
    assert PatternMatch("/*", "/y");
  }

  lemma ExampleCompiled()
    ensures CreatePkgConfigPathObj("*/c") == ConfigPathPattern(1, "*", true)
    ensures CreatePkgConfigPathObj("x/c") == ConfigPathPattern(1, "x", false)
    ensures CreatePkgConfigPathObj("x/*/c") == ConfigPathPattern(3, "x/*", true)
  {
    LastIndexOfAt("*/c", '*', 0);
    LastIndexOfAt("*/c", '/', 1);
    LastIndexOfAt("x/c", '/', 1);
    LastIndexOfAt("x/*/c", '*', 2);
    LastIndexOfAt("x/*/c", '/', 3);
  }

}
