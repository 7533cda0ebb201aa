/** `coreResolve`: URL resolution, the global map, the registry and `@node/`
    bypass, and the `paths`/`baseURL` fallback. */
module CoreResolution {
  import opened Wrappers
  import opened JsString
  import opened Dicts
  import opened Configuration
  import opened Paths

  /** What a name is resolved against: the parent name when there is one, else the document base. */
  function ParentOrBase(host: Host, parentName: Option<string>): string
  {
    if Truthy(parentName) then parentName.value else host.baseURI
  }

  /** A plain name after the global map: a registered module or an `@node/` name
      stands for itself; otherwise the `paths` rewrite, else `baseURL + name`. */
  function PlainResolved(host: Host, paths: Dict<string>, baseURL: string, name: string): string
  {
    if host.registryHas(name) then name
    else if Substr(name, 0, 6) == "@node/" then name
    else Or(AppliedPaths(paths, name), baseURL + name)
  }

  /** The decision procedure of `coreResolve`, once the paths are locked. */
  function Resolved(host: Host, paths: Dict<string>, mapping: Dict<string>, baseURL: string,
                    name: string, parentName: Option<string>, doMap: bool): string
  {
    var relative := host.resolveUrl(name, ParentOrBase(host, parentName));
    if Truthy(relative) then Or(AppliedPaths(paths, relative.value), relative.value)
    else
      var mapMatch := if doMap then host.mapMatch(Keys(mapping), name) else None;
      if Truthy(mapMatch) then
        var mapped := Text(Get(mapping, mapMatch.value)) + SubstrFrom(name, |mapMatch.value|);
        var remapped := host.resolveUrl(mapped, host.baseURI);
        if Truthy(remapped) then remapped.value else PlainResolved(host, paths, baseURL, mapped)
      else PlainResolved(host, paths, baseURL, name)
  }

  /** `coreResolve`: locks the paths on first use, then resolves `name`. */
  method CoreResolve(config: Config, host: Host, name: string, parentName: Option<string>, doMap: bool)
    returns (r: string)
    requires config.Valid() && host.Valid()
    modifies config`paths, config`pathsLocked
    ensures config.Valid() && config.pathsLocked
    ensures config.paths == if old(config.pathsLocked) then old(config.paths)
                            else NormalizedPaths(host, config.baseURL, old(config.paths))
    ensures r == Resolved(host, config.paths, config.mapping, config.baseURL, name, parentName, doMap)
  {
    if !config.pathsLocked {
      NormalizePaths(config, host);
    }

    var relativeResolved := host.resolveUrl(name, ParentOrBase(host, parentName));

    // standard URL resolution
    if Truthy(relativeResolved) {
      var aliased := ApplyPaths(config.paths, relativeResolved.value);
      return Or(aliased, relativeResolved.value);
    }

    // plain names go through the global map
    var plain := name;
    if doMap {
      var mapMatch := host.mapMatch(Keys(config.mapping), name);
      if Truthy(mapMatch) {
        plain := Text(Get(config.mapping, mapMatch.value)) + SubstrFrom(name, |mapMatch.value|);
        var remapped := host.resolveUrl(plain, host.baseURI);
        if Truthy(remapped) {
          return remapped.value;
        }
      }
    }

    if host.registryHas(plain) {
      return plain;
    }
    if Substr(plain, 0, 6) == "@node/" {
      return plain;
    }
    var aliased := ApplyPaths(config.paths, plain);
    r := Or(aliased, config.baseURL + plain);
  }

  /** A relative or absolute URL is resolved the same way with or without the global map. */
  lemma RelativeNamesIgnoreGlobalMap(host: Host, paths: Dict<string>, mapping: Dict<string>,
                                     baseURL: string, name: string, parentName: Option<string>)
    requires Truthy(host.resolveUrl(name, ParentOrBase(host, parentName)))
    ensures Resolved(host, paths, mapping, baseURL, name, parentName, true)
         == Resolved(host, paths, mapping, baseURL, name, parentName, false)
    ensures Resolved(host, paths, mapping, baseURL, name, parentName, true)
         in {host.resolveUrl(name, ParentOrBase(host, parentName)).value,
             Text(AppliedPaths(paths, host.resolveUrl(name, ParentOrBase(host, parentName)).value))}
  {
  }

  /** A plain name with no global map entry: a registered or `@node/` name is
      returned as is; otherwise the `paths` rewrite when there is one, else the
      name appended to `baseURL`. */
  lemma UnmappedPlainName(host: Host, paths: Dict<string>, mapping: Dict<string>,
                          baseURL: string, name: string, parentName: Option<string>, doMap: bool)
    requires !Truthy(host.resolveUrl(name, ParentOrBase(host, parentName)))
    requires !doMap || !Truthy(host.mapMatch(Keys(mapping), name))
    ensures host.registryHas(name) || StartsWith(name, "@node/")
            ==> Resolved(host, paths, mapping, baseURL, name, parentName, doMap) == name
    ensures !host.registryHas(name) && !StartsWith(name, "@node/")
            ==> Resolved(host, paths, mapping, baseURL, name, parentName, doMap)
                == (if Truthy(AppliedPaths(paths, name)) then AppliedPaths(paths, name).value
                    else baseURL + name)
  {
    PrefixTest(name, "@node/");
  }
}
