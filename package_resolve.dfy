/** The synchronous package pipeline: `packageResolveSync`,
    `applyPackageConfigSync`, `doMapSync` and `validMapping`. */
module PackageResolution {
  import opened Wrappers
  import opened JsString
  import opened Dicts
  import opened Errors
  import opened Configuration
  import opened Paths
  import opened CoreResolution
  import opened PackageMatch
  import opened ConfigPaths
  import opened Extensions

  /** `validMapping`: a target that starts with its own key may only be
      reached from the key itself, never from a longer path below it. */
  predicate ValidMapping(mapMatch: string, mapped: string, path: string)
  {
    !(Substr(mapped, 0, |mapMatch|) == mapMatch && |path| > |mapMatch|)
  }

  /** A mapping is refused exactly when its target starts with the key and the
      path reaches past the key; so `./x -> ./x/y` applies to `./x` only. */
  lemma ValidMappingMeans(mapMatch: string, mapped: string, path: string)
    ensures !ValidMapping(mapMatch, mapped, path)
            <==> StartsWith(mapped, mapMatch) && |path| > |mapMatch|
    ensures !ValidMapping(mapMatch, mapMatch + mapped, mapMatch + path) <==> path != ""
  {
    PrefixTest(mapped, mapMatch);
    PrefixTest(mapMatch + mapped, mapMatch);
  }

  /** A package-relative path with its leading `./` removed. */
  function StripDotSlash(s: string): string
  {
    if Substr(s, 0, 2) == "./" then SubstrFrom(s, 2) else s
  }

  lemma StripDotSlashMeans(s: string)
    ensures StartsWith(s, "./") ==> "./" + StripDotSlash(s) == s
    ensures !StartsWith(s, "./") ==> StripDotSlash(s) == s
  {
    PrefixTest(s, "./");
    if StartsWith(s, "./") {
      SubstrFromTail(s, 2);
      assert s == s[..2] + s[2..];
    }
  }

  /** The path below the package that is resolved: the given one, else the
      package `main` without `./`; none when both are empty. */
  function EffectiveSubPath(pkg: Package, subPath: string): Option<string>
  {
    if subPath != "" then Some(subPath)
    else if pkg.main != "" then Some(StripDotSlash(pkg.main))
    else None
  }

  /** Ordinary package resolution: the package name, `/`, and the path with
      the default extension. */
  function Fallback(globalMeta: Dict<MetaFragment>, pkg: Package, pkgName: string,
                    subPath: string, skipExtensions: bool): string
  {
    pkgName + "/" + DefaultExtended(globalMeta, pkg, pkgName, subPath, skipExtensions)
  }

  /** A package map entry found for a path: the key and the path looked up. */
  datatype MapHit = MapHit(mapMatch: string, mapPath: string)

  /** The package map lookup of `applyPackageConfigSync`: first `./` and the
      path, then, if that fails and the extension changes it, the path with the
      default extension. */
  function MapLookup(host: Host, globalMeta: Dict<MetaFragment>, pkg: Package, pkgName: string,
                     subPath: string, skipExtensions: bool): (r: Option<MapHit>)
    ensures r.Some? ==> pkg.mapping != [] && r.value.mapMatch != ""
    ensures r.Some? ==> host.mapMatch(Keys(pkg.mapping), r.value.mapPath) == Some(r.value.mapMatch)
    ensures r.Some? ==> r.value.mapPath == "./" + subPath
                        || r.value.mapPath == "./" + DefaultExtended(globalMeta, pkg, pkgName, subPath, skipExtensions)
    ensures pkg.mapping != [] && Truthy(host.mapMatch(Keys(pkg.mapping), "./" + subPath))
            ==> r == Some(MapHit(host.mapMatch(Keys(pkg.mapping), "./" + subPath).value, "./" + subPath))
  {
    if pkg.mapping == [] then None
    else
      var plain := "./" + subPath;
      var first := host.mapMatch(Keys(pkg.mapping), plain);
      if Truthy(first) then Some(MapHit(first.value, plain))
      else
        var extended := "./" + DefaultExtended(globalMeta, pkg, pkgName, subPath, skipExtensions);
        var second := if extended != plain then host.mapMatch(Keys(pkg.mapping), extended) else first;
        if Truthy(second) then Some(MapHit(second.value, extended)) else None
  }

  /** The path handed to a map target, without a trailing `/`. */
  function TrimSlash(path: string): string
  {
    if CharAt(path, |path| - 1) == Some('/') then Substr(path, 0, |path| - 1) else path
  }

  /** The map entry `applyPackageConfigSync` follows for `subPath`, if any:
      the lookup found a key whose target is a plain string accepted by
      `validMapping`. */
  predicate FollowsMapping(host: Host, globalMeta: Dict<MetaFragment>, pkg: Package, pkgName: string,
                           subPath: string, skipExtensions: bool)
  {
    match EffectiveSubPath(pkg, subPath)
    case None => false
    case Some(sub) =>
      match MapLookup(host, globalMeta, pkg, pkgName, sub, skipExtensions)
      case None => false
      case Some(hit) =>
        Get(pkg.mapping, hit.mapMatch).Some? && Get(pkg.mapping, hit.mapMatch).value.Target?
        && ValidMapping(hit.mapMatch, Get(pkg.mapping, hit.mapMatch).value.path, TrimSlash(hit.mapPath))
  }

  /** The result of `applyPackageConfigSync` in every case but a followed map
      entry: the package name when there is neither a path nor a `main`; the
      undefined-target error for a key without an entry; the
      synchronous-conditional error for a conditional target; otherwise, with
      no map hit or a refused mapping, `pkgName/` and the path with the
      default extension. */
  predicate PackageOutcome(host: Host, globalMeta: Dict<MetaFragment>, pkg: Package, pkgName: string,
                           subPath: string, skipExtensions: bool, r: Result<string>)
  {
    match EffectiveSubPath(pkg, subPath)
    case None => r == Ok(pkgName)
    case Some(sub) =>
      var fallback := Ok(Fallback(globalMeta, pkg, pkgName, sub, skipExtensions));
      match MapLookup(host, globalMeta, pkg, pkgName, sub, skipExtensions)
      case None => r == fallback
      case Some(hit) =>
        (Get(pkg.mapping, hit.mapMatch).None? ==> r == Err(MapTargetUndefined(hit.mapMatch)))
        && (Get(pkg.mapping, hit.mapMatch).Some? && Get(pkg.mapping, hit.mapMatch).value.Conditional?
         ==> r == Err(SyncConditionalUnsupported(hit.mapMatch, pkgName)))
        && (Get(pkg.mapping, hit.mapMatch).Some? && Get(pkg.mapping, hit.mapMatch).value.Target?
            && !ValidMapping(hit.mapMatch, Get(pkg.mapping, hit.mapMatch).value.path, TrimSlash(hit.mapPath))
            ==> r == fallback)
  }

  /** What the second half of `packageResolveSync` does with the resolved
      name `normalized`, given the packages `before` and `after` it and the
      package name it leaves in the metadata: an unowned name is returned as
      it is; a package configuration document is returned as it is with no
      package; otherwise the owner's configuration (registered fresh when new)
      is applied to the path below the owner. */
  ghost predicate InPackageOutcome(host: Host, globalMeta: Dict<MetaFragment>, packageConfigPaths: seq<string>,
                                   packageConfigKeys: seq<string>, before: Dict<Package>, after: Dict<Package>,
                                   normalized: string, skipExtensions: bool, packageName: Option<string>,
                                   r: Result<string>)
  {
    var owner := OwnerOf(packageConfigPaths, before, normalized);
    if !Truthy(owner) then r == Ok(normalized) && packageName == owner && after == before
    else if normalized in packageConfigKeys then r == Ok(normalized) && packageName == None && after == before
    else
      var pkg := PackageFor(before, owner.value, host.freshPackage);
      Get(after, owner.value) == Some(pkg)
      && PackageOutcome(host, globalMeta, pkg, owner.value, SubstrFrom(normalized, |owner.value| + 1),
                        skipExtensions, r)
  }

  /** Package configurations the resolver records: when metadata names a
      package, it also holds that package's configuration. */
  ghost predicate Consistent(packages: Dict<Package>, packageName: Option<string>, packageConfig: Option<Package>)
  {
    Truthy(packageName) ==> packageConfig.Some? && Get(packages, packageName.value) == packageConfig
  }

  ghost predicate MetadataConsistent(config: Config, metadata: Metadata)
    reads config, metadata
  {
    Consistent(config.packages, metadata.packageName, metadata.packageConfig)
  }

  /** Appending packages never breaks what metadata recorded. */
  lemma ConsistentGrows(before: Dict<Package>, after: Dict<Package>, packageName: Option<string>,
                        packageConfig: Option<Package>)
    requires before <= after && Consistent(before, packageName, packageConfig)
    ensures Consistent(after, packageName, packageConfig)
  {
    if Truthy(packageName) {
      GetGrow(before, after, packageName.value);
    }
  }

  /** How `config.paths` may change: not at all, or once, from the
      configured rules to their normalized form, after which they are locked. */
  ghost predicate PathsSettled(host: Host, baseURL: string, before: Dict<string>, beforeLocked: bool,
                               after: Dict<string>, afterLocked: bool)
  {
    if beforeLocked then afterLocked && after == before
    else (!afterLocked && after == before)
         || (afterLocked && host.Valid() && after == NormalizedPaths(host, baseURL, before))
  }

  /** The packages only grow, and every new entry is a fresh package. */
  ghost predicate PackagesGrew(before: Dict<Package>, after: Dict<Package>, freshPackage: Package)
  {
    before <= after && forall i :: |before| <= i < |after| ==> after[i].value == freshPackage
  }

  /** What one call of the pipeline may do to the configuration. */
  ghost predicate Evolved(config: Config, host: Host, paths: Dict<string>, locked: bool, packages: Dict<Package>)
    reads config
  {
    config.Valid()
    && PathsSettled(host, config.baseURL, paths, locked, config.paths, config.pathsLocked)
    && PackagesGrew(packages, config.packages, host.freshPackage)
  }

  lemma EvolvedTrans(config: Config, host: Host, paths0: Dict<string>, locked0: bool, packages0: Dict<Package>,
                     paths1: Dict<string>, locked1: bool, packages1: Dict<Package>)
    requires PathsSettled(host, config.baseURL, paths0, locked0, paths1, locked1)
    requires PackagesGrew(packages0, packages1, host.freshPackage)
    requires Evolved(config, host, paths1, locked1, packages1)
    ensures Evolved(config, host, paths0, locked0, packages0)
  {
    assert forall i :: |packages1| <= i < |config.packages| ==> config.packages[i].value == host.freshPackage;
  }

  /** The package configuration the parent metadata carries, if any. */
  function ParentConfig(parentMetadata: Option<Metadata>): Option<Package>
    reads if parentMetadata.Some? then {parentMetadata.value} else {}
  {
    if parentMetadata.Some? then parentMetadata.value.packageConfig else None
  }

  /** The parent package's map key that `packageResolveSync` follows before
      anything else: only for names not starting with `.`, and only when its
      target is a plain string. */
  function ParentMapMatch(host: Host, parentConfig: Option<Package>, name: string): (r: Option<string>)
    ensures r.Some? ==> parentConfig.Some? && CharAt(name, 0) != Some('.')
    ensures r.Some? ==> Get(parentConfig.value.mapping, r.value).Some?
                        && Get(parentConfig.value.mapping, r.value).value.Target?
  {
    if parentConfig.None? || CharAt(name, 0) == Some('.') || parentConfig.value.mapping == [] then None
    else
      var m := host.mapMatch(Keys(parentConfig.value.mapping), name);
      if Truthy(m) && Get(parentConfig.value.mapping, m.value).Some?
         && Get(parentConfig.value.mapping, m.value).value.Target?
      then m else None
  }

  /** `packageResolveSync` goes on to the ordinary resolution: no parent map
      key applies, or `validMapping` refuses its target, in which case
      `doMapSync` gives nothing. */
  predicate ParentMapFallsThrough(host: Host, parentConfig: Option<Package>, name: string)
  {
    var m := ParentMapMatch(host, parentConfig, name);
    m.None? || !ValidMapping(m.value, Get(parentConfig.value.mapping, m.value).value.path, TrimSlash(name))
  }

  /** The package owning a normalized name: a config-path match wins over the
      configured packages. */
  function OwnerOf(packageConfigPaths: seq<string>, packages: Dict<Package>, normalized: string): (r: Option<string>)
    ensures packageConfigPaths == [] ==> r == OwningPackage(packages, normalized)
  {
    match PackageConfigMatchOf(packageConfigPaths, normalized)
    case Some(m) => Some(m.packageName)
    case None => OwningPackage(packages, normalized)
  }

  /** The package configuration resolution continues with: the registered one,
      or a fresh one. */
  function PackageFor(packages: Dict<Package>, pkgName: string, freshPackage: Package): Package
  {
    match Get(packages, pkgName)
    case Some(p) => p
    case None => freshPackage
  }

  /** The map lookup of `applyPackageConfigSync`: without, then with the
      default extension. It repeats the lookup `MapLookup` specifies because
      the default extension comes from the method `AddDefaultExtension`,
      which a function cannot call; its ensures ties the two together. */
  method FindMapHit(host: Host, globalMeta: Dict<MetaFragment>, pkg: Package, pkgName: string,
                    subPath: string, skipExtensions: bool) returns (hit: Option<MapHit>)
    ensures hit == MapLookup(host, globalMeta, pkg, pkgName, subPath, skipExtensions)
  {
    if pkg.mapping == [] {
      return None;
    }
    var mapPath := "./" + subPath;
    var mapMatch := host.mapMatch(Keys(pkg.mapping), mapPath);
    if !Truthy(mapMatch) {
      var extended := AddDefaultExtension(globalMeta, pkg, pkgName, subPath, skipExtensions);
      mapPath := "./" + extended;
      if mapPath != "./" + subPath {
        mapMatch := host.mapMatch(Keys(pkg.mapping), mapPath);
      }
    }
    if Truthy(mapMatch) {
      return Some(MapHit(mapMatch.value, mapPath));
    }
    return None;
  }

  /** `doMapSync`: follows the map entry `mapMatch` of package `pkgName`. A
      conditional target cannot be followed synchronously; a target refused by
      `validMapping` gives nothing; otherwise the target with the rest of the
      path is resolved again, relative to the package, sharing the metadata. */
  method DoMapSync(config: Config, host: Host, pkg: Package, pkgName: string, mapMatch: string,
                   path: string, metadata: Metadata, skipExtensions: bool, fuel: nat)
    returns (r: Result<Option<string>>)
    requires config.Valid() && host.Valid() && MetadataConsistent(config, metadata)
    modifies config`paths, config`pathsLocked, config`packages, metadata`packageName, metadata`packageConfig
    ensures Evolved(config, host, old(config.paths), old(config.pathsLocked), old(config.packages))
    ensures r.Ok? ==> MetadataConsistent(config, metadata)
    ensures Get(pkg.mapping, mapMatch).None? ==> r == Err(MapTargetUndefined(mapMatch))
    ensures Get(pkg.mapping, mapMatch).Some? && Get(pkg.mapping, mapMatch).value.Conditional?
            ==> r == Err(SyncConditionalUnsupported(mapMatch, pkgName))
    ensures Get(pkg.mapping, mapMatch).Some? && Get(pkg.mapping, mapMatch).value.Target?
            && !ValidMapping(mapMatch, Get(pkg.mapping, mapMatch).value.path, TrimSlash(path))
            ==> r == Ok(None)
    ensures !(Get(pkg.mapping, mapMatch).Some? && Get(pkg.mapping, mapMatch).value.Target?
              && ValidMapping(mapMatch, Get(pkg.mapping, mapMatch).value.path, TrimSlash(path)))
            ==> config.packages == old(config.packages)
                && config.paths == old(config.paths) && config.pathsLocked == old(config.pathsLocked)
    ensures Get(pkg.mapping, mapMatch).Some? && Get(pkg.mapping, mapMatch).value.Target?
            && ValidMapping(mapMatch, Get(pkg.mapping, mapMatch).value.path, TrimSlash(path)) && fuel == 0
            ==> r == Err(CallStackExceeded)
    decreases fuel, 0
  {
    var trimmed := TrimSlash(path);
    var mapped := Get(pkg.mapping, mapMatch);
    if mapped.None? {
      return Err(MapTargetUndefined(mapMatch));
    }
    if mapped.value.Conditional? {
      return Err(SyncConditionalUnsupported(mapMatch, pkgName));
    }
    if !ValidMapping(mapMatch, mapped.value.path, trimmed) {
      return Ok(None);
    }
    if fuel == 0 {
      return Err(CallStackExceeded);
    }
    var resolved := PackageResolveSync(config, host, mapped.value.path + SubstrFrom(trimmed, |mapMatch|),
                                       Some(pkgName + "/"), metadata, Some(metadata), skipExtensions, fuel - 1);
    if resolved.Err? {
      return Err(resolved.error);
    }
    return Ok(Some(resolved.value));
  }

  /** `applyPackageConfigSync`: resolves `subPath` inside package `pkgName`
      with configuration `pkg`: the package itself when there is neither a
      path nor a main, else a package map entry when one applies, else the
      path below the package with the default extension. */
  method ApplyPackageConfigSync(config: Config, host: Host, pkg: Package, pkgName: string,
                                subPath: string, metadata: Metadata, skipExtensions: bool, fuel: nat)
    returns (r: Result<string>)
    requires config.Valid() && host.Valid() && MetadataConsistent(config, metadata)
    modifies config`paths, config`pathsLocked, config`packages, metadata`packageName, metadata`packageConfig
    ensures Evolved(config, host, old(config.paths), old(config.pathsLocked), old(config.packages))
    ensures r.Ok? ==> MetadataConsistent(config, metadata)
    ensures PackageOutcome(host, config.meta, pkg, pkgName, subPath, skipExtensions, r)
    ensures !FollowsMapping(host, config.meta, pkg, pkgName, subPath, skipExtensions)
            ==> config.packages == old(config.packages)
    ensures FollowsMapping(host, config.meta, pkg, pkgName, subPath, skipExtensions) && fuel == 0
            ==> r == Err(CallStackExceeded)
    decreases fuel, 1
  {
    var effective := EffectiveSubPath(pkg, subPath);
    if effective.None? {
      return Ok(pkgName);
    }
    var sub := effective.value;
    var hit := FindMapHit(host, config.meta, pkg, pkgName, sub, skipExtensions);
    if hit.Some? {
      var mapped := DoMapSync(config, host, pkg, pkgName, hit.value.mapMatch, hit.value.mapPath,
                              metadata, skipExtensions, fuel);
      if mapped.Err? {
        return Err(mapped.error);
      }
      if mapped.value.Some? && mapped.value.value != "" {
        return Ok(mapped.value.value);
      }
    }
    var extended := AddDefaultExtension(config.meta, pkg, pkgName, sub, skipExtensions);
    return Ok(pkgName + "/" + extended);
  }

  /** `packageResolveSync`: follows the parent package's map first; otherwise
      resolves `name` and, when a package owns the result, applies that
      package's configuration. A package met for the first time gets a fresh
      configuration entry; a name that is itself a package configuration
      document keeps no package. */
  method PackageResolveSync(config: Config, host: Host, name: string, parentName: Option<string>,
                            metadata: Metadata, parentMetadata: Option<Metadata>,
                            skipExtensions: bool, fuel: nat)
    returns (r: Result<string>)
    requires config.Valid() && host.Valid() && MetadataConsistent(config, metadata)
    modifies config`paths, config`pathsLocked, config`packages, metadata`packageName, metadata`packageConfig
    ensures Evolved(config, host, old(config.paths), old(config.pathsLocked), old(config.packages))
    ensures r.Ok? ==> MetadataConsistent(config, metadata)
    ensures ParentMapFallsThrough(host, old(ParentConfig(parentMetadata)), name) ==>
      config.pathsLocked
      && InPackageOutcome(host, config.meta, config.packageConfigPaths, config.packageConfigKeys,
                          old(config.packages), config.packages,
                          Resolved(host, config.paths, config.mapping, config.baseURL, name, parentName, true),
                          skipExtensions, metadata.packageName, r)
    decreases fuel, 4
  {
    var parentConfig := ParentConfig(parentMetadata);
    var parentPackage := if parentMetadata.Some? then parentMetadata.value.packageName else None;
    var parentMapMatch := ParentMapMatch(host, parentConfig, name);
    if parentMapMatch.Some? {
      var mapped := DoMapSync(config, host, parentConfig.value, Text(parentPackage), parentMapMatch.value,
                              name, metadata, skipExtensions, fuel);
      if mapped.Err? {
        return Err(mapped.error);
      }
      if mapped.value.Some? && mapped.value.value != "" {
        return Ok(mapped.value.value);
      }
    }
    ghost var paths1, locked1, packages1 := config.paths, config.pathsLocked, config.packages;
    var normalized := CoreResolve(config, host, name, parentName, true);
    ghost var paths2, packages2 := config.paths, config.packages;
    r := ResolveInPackage(config, host, normalized, metadata, skipExtensions, fuel);
    EvolvedTrans(config, host, paths1, locked1, packages1, paths2, true, packages2);
    EvolvedTrans(config, host, old(config.paths), old(config.pathsLocked), old(config.packages),
                 paths1, locked1, packages1);
  }

  /** The second half of `packageResolveSync`: finds the package owning the
      resolved name, records it in the metadata, and applies its configuration. */
  method ResolveInPackage(config: Config, host: Host, normalized: string, metadata: Metadata,
                          skipExtensions: bool, fuel: nat)
    returns (r: Result<string>)
    requires config.Valid() && host.Valid() && config.pathsLocked
    modifies config`paths, config`pathsLocked, config`packages, metadata`packageName, metadata`packageConfig
    ensures Evolved(config, host, old(config.paths), true, old(config.packages))
    ensures r.Ok? ==> MetadataConsistent(config, metadata)
    ensures InPackageOutcome(host, config.meta, config.packageConfigPaths, config.packageConfigKeys,
                             old(config.packages), config.packages, normalized, skipExtensions,
                             metadata.packageName, r)
    decreases fuel, 3
  {
    var owner := FindOwner(config.packageConfigPaths, config.packages, normalized);
    metadata.packageName := owner;
    if !Truthy(owner) {
      return Ok(normalized);
    }
    if normalized in config.packageConfigKeys {
      metadata.packageName := None;
      return Ok(normalized);
    }

    r := ResolveInOwner(config, host, owner.value, SubstrFrom(normalized, |owner.value| + 1),
                        metadata, skipExtensions, fuel);
  }

  /** Resolution inside the owning package `pkgName`, already recorded in the
      metadata: its configuration is looked up (or registered) and applied to
      the path below it. */
  method ResolveInOwner(config: Config, host: Host, pkgName: string, subPath: string,
                        metadata: Metadata, skipExtensions: bool, fuel: nat)
    returns (r: Result<string>)
    requires config.Valid() && host.Valid() && metadata.packageName == Some(pkgName)
    modifies config`paths, config`pathsLocked, config`packages, metadata`packageName, metadata`packageConfig
    ensures Evolved(config, host, old(config.paths), old(config.pathsLocked), old(config.packages))
    ensures r.Ok? ==> MetadataConsistent(config, metadata)
    ensures var pkg := PackageFor(old(config.packages), pkgName, host.freshPackage);
      Get(config.packages, pkgName) == Some(pkg)
      && PackageOutcome(host, config.meta, pkg, pkgName, subPath, skipExtensions, r)
    decreases fuel, 2
  {
    ghost var paths0, locked0, packages0 := config.paths, config.pathsLocked, config.packages;
    var pkg := PackageEntry(config, host, pkgName);
    metadata.packageConfig := Some(pkg);
    ghost var packages1 := config.packages;
    r := ApplyPackageConfigSync(config, host, pkg, pkgName, subPath, metadata, skipExtensions, fuel);
    EvolvedTrans(config, host, paths0, locked0, packages0, paths0, locked0, packages1);
    GetGrow(packages1, config.packages, pkgName);
  }

  /** The owning package: a config-path match, else the longest configured package. */
  method FindOwner(packageConfigPaths: seq<string>, packages: Dict<Package>, normalized: string)
    returns (owner: Option<string>)
    ensures owner == OwnerOf(packageConfigPaths, packages, normalized)
  {
    var pkgConfigMatch := GetPackageConfigMatch(packageConfigPaths, normalized);
    if pkgConfigMatch.Some? {
      owner := Some(pkgConfigMatch.value.packageName);
    } else {
      owner := GetPackage(packages, normalized);
    }
  }

  /** The configuration of package `pkgName`, registering a fresh one the
      first time the package is met. */
  method PackageEntry(config: Config, host: Host, pkgName: string) returns (pkg: Package)
    requires config.Valid()
    modifies config`packages
    ensures config.Valid() && PackagesGrew(old(config.packages), config.packages, host.freshPackage)
    ensures pkg == PackageFor(old(config.packages), pkgName, host.freshPackage)
    ensures Get(config.packages, pkgName) == Some(pkg)
    ensures |config.packages| <= |old(config.packages)| + 1
  {
    var found := Get(config.packages, pkgName);
    if found.Some? {
      return found.value;
    }
    Appended(config.packages, pkgName, host.freshPackage);
    config.packages := config.packages + [Entry(pkgName, host.freshPackage)];
    return host.freshPackage;
  }
}
