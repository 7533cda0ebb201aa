/** `getMetaMatches` and `addDefaultExtension`: meta patterns that match a
    module path, and the default extension they can switch off. */
module Extensions {
  import opened Wrappers
  import opened JsString
  import opened Dicts
  import opened Configuration

  /** A reported meta match: a wildcard pattern (with any `./` removed) with its
      segment count, or the exact entry, reported with depth 0. */
  datatype MetaMatch = WildcardMatch(pattern: string, depth: nat) | ExactMatch

  function Depth(m: MetaMatch): nat
  {
    match m
    case WildcardMatch(_, d) => d
    case ExactMatch => 0
  }

  /** A meta key without its optional leading `./`. */
  function MetaModule(key: string): string
  {
    if Substr(key, 0, 2) == "./" then SubstrFrom(key, 2) else key
  }

  /** The wildcard test of `getMetaMatches` for one key: the text before the
      first `*` must start the path and the text after it must end the path. */
  function WildcardEntry(key: string, subPath: string): Option<string>
  {
    var pattern := MetaModule(key);
    var wildcardIndex := IndexOf(pattern, '*');
    if wildcardIndex == -1 then None
    else if Substr(pattern, 0, wildcardIndex) == Substr(subPath, 0, wildcardIndex)
         && SubstrFrom(pattern, wildcardIndex + 1)
            == SubstrFrom(subPath, |subPath| - |pattern| + wildcardIndex + 1)
    then Some(pattern)
    else None
  }

  /** A key with a `*` matches exactly the paths that start with the text before
      its first `*` and end with the text after it. The two parts may overlap:
      `x*x` matches `x`. */
  lemma WildcardEntryMeans(key: string, subPath: string)
    ensures var pattern := MetaModule(key);
      WildcardEntry(key, subPath).Some?
      <==> '*' in pattern
           && StartsWith(subPath, pattern[..IndexOf(pattern, '*')])
           && EndsWith(subPath, pattern[IndexOf(pattern, '*') + 1..])
    ensures WildcardEntry(key, subPath).Some? ==> WildcardEntry(key, subPath).value == MetaModule(key)
  {
    var pattern := MetaModule(key);
    var wi := IndexOf(pattern, '*');
    if wi != -1 {
      SubstrPrefix(pattern, wi);
      PrefixTest(subPath, pattern[..wi]);
      SubstrFromTail(pattern, wi + 1);
      SuffixTest(subPath, pattern[wi + 1..]);
    }
  }

  /** What one key contributes to the wildcard matches. */
  function WildcardReport(key: string, subPath: string): seq<MetaMatch>
  {
    match WildcardEntry(key, subPath)
    case Some(pattern) => [WildcardMatch(pattern, SegmentCount(pattern))]
    case None => []
  }

  /** The wildcard matches of `getMetaMatches`, in `for-in` order. */
  function WildcardMetaMatches(meta: Dict<MetaFragment>, subPath: string): seq<MetaMatch>
  {
    if meta == [] then []
    else WildcardMetaMatches(meta[..|meta| - 1], subPath) + WildcardReport(meta[|meta| - 1].key, subPath)
  }

  lemma WildcardStep(meta: Dict<MetaFragment>, i: nat, subPath: string)
    requires i < |meta|
    ensures WildcardMetaMatches(meta[..i + 1], subPath)
            == WildcardMetaMatches(meta[..i], subPath) + WildcardReport(meta[i].key, subPath)
  {
    assert meta[..i + 1][..i] == meta[..i];
  }

  /** The exact entry, under the path itself or under `./` and the path. */
  predicate HasExactMeta(meta: Dict<MetaFragment>, subPath: string)
  {
    Get(meta, subPath).Some? || Get(meta, "./" + subPath).Some?
  }

  /** Everything `getMetaMatches` reports when the callback never stops it:
      the wildcard matches, then the exact entry. */
  function MetaMatches(meta: Dict<MetaFragment>, subPath: string): seq<MetaMatch>
  {
    WildcardMetaMatches(meta, subPath) + (if HasExactMeta(meta, subPath) then [ExactMatch] else [])
  }

  /** Wildcard matches come from keys holding a `*` that match the path, with
      the `./` removed, and carry their segment count (at least 1). */
  lemma {:induction false} WildcardMatchesReported(meta: Dict<MetaFragment>, subPath: string)
    ensures forall m :: m in WildcardMetaMatches(meta, subPath) ==>
      m.WildcardMatch? && m.depth == SegmentCount(m.pattern) && Depth(m) >= 1 && '*' in m.pattern
      && exists k :: k in Keys(meta) && WildcardEntry(k, subPath) == Some(m.pattern)
  {
    if meta != [] {
      var front := meta[..|meta| - 1];
      WildcardMatchesReported(front, subPath);
      var k := meta[|meta| - 1].key;
      assert Keys(meta) == Keys(front) + [k];
      WildcardEntryMeans(k, subPath);
    }
  }

  /** The exact match, with depth 0, is reported last and only when the path
      (or `./` and the path) is a key. */
  lemma ExactMatchReported(meta: Dict<MetaFragment>, subPath: string)
    ensures ExactMatch in MetaMatches(meta, subPath) <==> HasExactMeta(meta, subPath)
    ensures ExactMatch in MetaMatches(meta, subPath) ==>
      MetaMatches(meta, subPath)[|MetaMatches(meta, subPath)| - 1] == ExactMatch
  {
    WildcardMatchesReported(meta, subPath);
  }

  /** The callback of `addDefaultExtension`: the exact entry, or a wildcard
      pattern with something after its last `*`, opts out of the extension. */
  predicate SuppressesExtension(m: MetaMatch)
  {
    Depth(m) == 0 || LastIndexOf(m.pattern, '*') != |m.pattern| - 1
  }

  predicate MetaOptOut(meta: Dict<MetaFragment>, subPath: string)
  {
    exists m :: m in MetaMatches(meta, subPath) && SuppressesExtension(m)
  }

  /** `getMetaMatches` with the `addDefaultExtension` callback: the scan stops
      at the first wildcard match that opts out; otherwise the exact entry decides. */
  method MetaOptsOut(meta: Dict<MetaFragment>, subPath: string) returns (metaMatch: bool)
    ensures metaMatch == MetaOptOut(meta, subPath)
  {
    var i := 0;
    while i < |meta|
      invariant 0 <= i <= |meta|
      invariant forall m :: m in WildcardMetaMatches(meta[..i], subPath) ==> !SuppressesExtension(m)
    {
      WildcardStep(meta, i, subPath);
      var found := WildcardEntry(meta[i].key, subPath);
      if found.Some? {
        var m := WildcardMatch(found.value, SegmentCount(found.value));
        if SuppressesExtension(m) {
          OptOutAt(meta, i, subPath, m);
          return true;
        }
      }
      i := i + 1;
    }
    assert meta[..i] == meta;
    ExactDecides(meta, subPath);
    metaMatch := HasExactMeta(meta, subPath);
  }

  /** A wildcard match of entry `i` that suppresses the extension opts out. */
  lemma OptOutAt(meta: Dict<MetaFragment>, i: nat, subPath: string, m: MetaMatch)
    requires i < |meta| && m in WildcardReport(meta[i].key, subPath) && SuppressesExtension(m)
    ensures MetaOptOut(meta, subPath)
  {
    WildcardStep(meta, i, subPath);
    WildcardPrefix(meta, i + 1, subPath);
    var front := WildcardMetaMatches(meta[..i], subPath);
    var w := WildcardMetaMatches(meta, subPath);
    var k := |front|;
    assert WildcardMetaMatches(meta[..i + 1], subPath)[k] == m;
    assert w[k] == m;
    assert MetaMatches(meta, subPath)[k] == m;
  }

  /** When no wildcard match suppresses the extension, the exact entry decides. */
  lemma ExactDecides(meta: Dict<MetaFragment>, subPath: string)
    requires forall m :: m in WildcardMetaMatches(meta, subPath) ==> !SuppressesExtension(m)
    ensures MetaOptOut(meta, subPath) <==> HasExactMeta(meta, subPath)
  {
    if HasExactMeta(meta, subPath) {
      assert ExactMatch in MetaMatches(meta, subPath);
    }
  }

  /** The matches of a prefix of the entries come first. */
  lemma {:induction false} WildcardPrefix(meta: Dict<MetaFragment>, n: nat, subPath: string)
    requires n <= |meta|
    ensures WildcardMetaMatches(meta[..n], subPath) <= WildcardMetaMatches(meta, subPath)
    decreases |meta| - n
  {
    if n < |meta| {
      WildcardPrefix(meta, n + 1, subPath);
      WildcardStep(meta, n, subPath);
      var shorter, longer := WildcardMetaMatches(meta[..n], subPath), WildcardMetaMatches(meta[..n + 1], subPath);
      assert shorter <= longer;
    } else {
      assert meta[..n] == meta;
    }
  }

  /** What `addDefaultExtension` returns. */
  function DefaultExtended(globalMeta: Dict<MetaFragment>, pkg: Package, pkgName: string,
                           subPath: string, skipExtensions: bool): string
  {
    if subPath == "" || pkg.defaultExtension == "" || subPath[|subPath| - 1] == '/' || skipExtensions
    then subPath
    else if MetaOptOut(pkg.meta, subPath) || MetaOptOut(globalMeta, pkgName + "/" + subPath)
    then subPath
    else
      var defaultExtension := "." + pkg.defaultExtension;
      if SubstrFrom(subPath, |subPath| - |defaultExtension|) != defaultExtension
      then subPath + defaultExtension
      else subPath
  }

  /** `addDefaultExtension`: the package meta is consulted on the path, and only
      if it does not opt out, the global meta on the package name, `/` and the path. */
  method AddDefaultExtension(globalMeta: Dict<MetaFragment>, pkg: Package, pkgName: string,
                             subPath: string, skipExtensions: bool) returns (r: string)
    ensures r == DefaultExtended(globalMeta, pkg, pkgName, subPath, skipExtensions)
  {
    if subPath == "" || pkg.defaultExtension == "" || subPath[|subPath| - 1] == '/' || skipExtensions {
      return subPath;
    }
    var metaMatch := false;
    if pkg.meta != [] {
      metaMatch := MetaOptsOut(pkg.meta, subPath);
    }
    if !metaMatch && globalMeta != [] {
      metaMatch := MetaOptsOut(globalMeta, pkgName + "/" + subPath);
    }
    if metaMatch {
      return subPath;
    }
    var defaultExtension := "." + pkg.defaultExtension;
    if SubstrFrom(subPath, |subPath| - |defaultExtension|) != defaultExtension {
      r := subPath + defaultExtension;
    } else {
      r := subPath;
    }
  }

  /** The result is the path itself or the path with `.` and the default
      extension appended; it is appended exactly when the path qualifies (non-empty, not
      a folder, extension set, not skipped, no meta opt-out) and does not
      already end with it, and a qualifying path always ends up with it. */
  lemma DefaultExtendedResult(globalMeta: Dict<MetaFragment>, pkg: Package, pkgName: string,
                              subPath: string, skipExtensions: bool)
    ensures var r := DefaultExtended(globalMeta, pkg, pkgName, subPath, skipExtensions);
      var ext := "." + pkg.defaultExtension;
      var qualifies := subPath != "" && pkg.defaultExtension != "" && subPath[|subPath| - 1] != '/'
        && !skipExtensions && !MetaOptOut(pkg.meta, subPath)
        && !MetaOptOut(globalMeta, pkgName + "/" + subPath);
      (r == subPath + ext <==> qualifies && !EndsWith(subPath, ext))
      && (r != subPath + ext ==> r == subPath)
      && (qualifies ==> EndsWith(r, ext))
  {
    var ext := "." + pkg.defaultExtension;
    SuffixTest(subPath, ext);
    assert EndsWith(subPath + ext, ext) by { assert (subPath + ext)[|subPath|..] == ext; }
  }

  /** Adding the default extension twice is the same as adding it once. */
  lemma DefaultExtendedIdempotent(globalMeta: Dict<MetaFragment>, pkg: Package, pkgName: string,
                                  subPath: string, skipExtensions: bool)
    ensures var once := DefaultExtended(globalMeta, pkg, pkgName, subPath, skipExtensions);
      DefaultExtended(globalMeta, pkg, pkgName, once, skipExtensions) == once
  {
    var once := DefaultExtended(globalMeta, pkg, pkgName, subPath, skipExtensions);
    var ext := "." + pkg.defaultExtension;
    if once != subPath {
      DefaultExtendedResult(globalMeta, pkg, pkgName, subPath, skipExtensions);
      assert once[|once| - 1] == ext[|ext| - 1];
      SuffixTest(once, ext);
    }
  }
}
