/** The loader's configuration record, the per-call metadata record, and the
    collaborators the resolver calls but does not define. */
module Configuration {
  import opened Wrappers
  import opened JsString
  import opened Dicts

  /** A per-module load-metadata fragment. Its fields matter only to the meta
      merge, which is not part of this model; here only its presence counts. */
  datatype MetaFragment = MetaFragment(format: Option<string>, loader: Option<string>)

  /** A package map target: a plain string, or a conditional object mapping
      condition expressions to targets in declaration order. */
  datatype MapTarget = Target(path: string) | Conditional(branches: Dict<string>)

  /** A package configuration (its `map` property is `mapping`). A falsy `main` or `defaultExtension`
      (unset, `false` or "") is "", and an absent `map` or `meta` is empty. */
  datatype Package = Package(
    main: string,
    mapping: Dict<MapTarget>,
    meta: Dict<MetaFragment>,
    defaultExtension: string,
    configured: bool)

  /** Calls the resolver makes into code outside this model:
      `resolveUrlToParentIfNotPlain`, `getMapMatch` (over a map's keys),
      `registry.has`, the document `baseURI` and `createPackage()`. */
  datatype Host = Host(
    resolveUrl: (string, string) -> Option<string>,
    mapMatch: (seq<string>, string) -> Option<string>,
    registryHas: string -> bool,
    baseURI: string,
    freshPackage: Package)
  {
    /** A name starting with `./` is never plain, so it always resolves. */
    ghost predicate Valid()
    {
      forall name, parent :: StartsWith(name, "./") ==> resolveUrl(name, parent).Some?
    }
  }

  /** The loader configuration. The resolver changes `paths` once (when it
      locks them), appends to `packages` and `packageConfigKeys`, and reads the rest. */
  class Config {
    var baseURL: string
    var paths: Dict<string>
    var pathsLocked: bool
    var mapping: Dict<string>  // the `map` property
    var packages: Dict<Package>
    var packageConfigPaths: seq<string>
    var packageConfigKeys: seq<string>
    var meta: Dict<MetaFragment>
    var pluginFirst: bool

    ghost predicate Valid()
      reads this
    {
      DistinctKeys(paths) && DistinctKeys(packages) && DistinctKeys(mapping) && DistinctKeys(meta)
    }

    /** The record a new loader starts from: nothing configured, paths not locked. */
    constructor (baseURL: string)
      ensures Valid()
      ensures this.baseURL == baseURL && !pathsLocked && !pluginFirst
      ensures paths == [] && mapping == [] && packages == [] && meta == []
      ensures packageConfigPaths == [] && packageConfigKeys == []
    {
      this.baseURL := baseURL;
      paths := [];
      pathsLocked := false;
      mapping := [];
      packages := [];
      packageConfigPaths := [];
      packageConfigKeys := [];
      meta := [];
      pluginFirst := false;
    }

    /** Records a config document path as a key that is never resolved as a
        package member, adding it only once. */
    method NotePackageConfigKey(path: string)
      modifies this`packageConfigKeys
      ensures path in packageConfigKeys
      ensures packageConfigKeys == if path in old(packageConfigKeys) then old(packageConfigKeys)
                                   else old(packageConfigKeys) + [path]
    {
      if path !in packageConfigKeys {
        packageConfigKeys := packageConfigKeys + [path];
      }
    }
  }

  /** The metadata of one resolution call, created fresh for every call. */
  class Metadata {
    var pluginName: Option<string>
    var pluginArgument: Option<string>
    var packageName: Option<string>
    var packageConfig: Option<Package>

    constructor ()
      ensures pluginName == None && pluginArgument == None
      ensures packageName == None && packageConfig == None
    {
      pluginName := None;
      pluginArgument := None;
      packageName := None;
      packageConfig := None;
    }
  }
}
